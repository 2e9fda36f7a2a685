/** comb: k-subsets of a sequence. The state is a vector of tails of one list, each
    named by the position where it starts; the empty tail starts at the length. */
module Comb {
  import opened Wrappers
  import opened Lex
  import opened Selection
  import opened Binomial

  // ---- Increasing tuples and their rank -----------------------------------

  /** t is strictly increasing, within [lo, n). */
  predicate Subset(t: Tuple, lo: nat, n: nat)
    decreases |t|
  {
    t == [] || (lo <= t[0] < n && Subset(t[1..], t[0] + 1, n))
  }

  ghost predicate Increasing(t: Tuple) {
    forall i, j | 0 <= i < j < |t| :: t[i] < t[j]
  }

  lemma {:induction false} SubsetMeans(t: Tuple, lo: nat, n: nat)
    ensures Subset(t, lo, n) <==> Increasing(t) && forall i | 0 <= i < |t| :: lo <= t[i] < n
    decreases |t|
  {
    if t != [] && t[0] >= 0 {
      var u := t[1..];
      SubsetMeans(u, t[0] + 1, n);
      assert forall i | 0 < i < |t| :: t[i] == u[i - 1];
      if Increasing(t) && forall i | 0 <= i < |t| :: lo <= t[i] < n {
        forall i | 0 <= i < |u| ensures t[0] + 1 <= u[i] < n { assert u[i] == t[i + 1]; }
        assert Increasing(u);
      }
    }
  }

  /** How many subsets of the same size come before t. */
  function Rank(t: Tuple, lo: nat, n: nat): nat
    requires Subset(t, lo, n)
    decreases n - lo
  {
    if t == [] then 0
    else if t[0] == lo then Rank(t[1..], lo + 1, n)
    else Choose(n - lo - 1, |t| - 1) + Rank(t, lo + 1, n)
  }

  lemma {:induction false} RankBound(t: Tuple, lo: nat, n: nat)
    requires Subset(t, lo, n) && lo <= n
    ensures Rank(t, lo, n) < Choose(n - lo, |t|)
    decreases n - lo
  {
    if t != [] {
      RankBound(if t[0] == lo then t[1..] else t, lo + 1, n);
    }
  }

  lemma {:induction false} RankOrder(t: Tuple, u: Tuple, lo: nat, n: nat)
    requires |t| == |u| && Subset(t, lo, n) && Subset(u, lo, n) && Less(t, u)
    ensures Rank(t, lo, n) < Rank(u, lo, n)
    decreases n - lo
  {
    if t[0] == u[0] == lo {
      RankOrder(t[1..], u[1..], lo + 1, n);
    } else if t[0] == lo {
      RankBound(t[1..], lo + 1, n);
    } else {
      RankOrder(t, u, lo + 1, n);
    }
  }

  function Unrank(v: nat, k: nat, lo: nat, n: nat): (t: Tuple)
    requires lo <= n && v < Choose(n - lo, k)
    ensures |t| == k && Subset(t, lo, n) && Rank(t, lo, n) == v
    decreases n - lo
  {
    if k == 0 then []
    else if v < Choose(n - lo - 1, k - 1) then [lo] + Unrank(v, k - 1, lo + 1, n)
    else Unrank(v - Choose(n - lo - 1, k - 1), k, lo + 1, n)
  }

  lemma {:induction false} RankInjective(t: Tuple, u: Tuple, n: nat)
    requires |t| == |u| && Subset(t, 0, n) && Subset(u, 0, n) && Rank(t, 0, n) == Rank(u, 0, n)
    ensures t == u
  {
    Trichotomy(t, u);
    if Less(t, u) { RankOrder(t, u, 0, n); }
    if Less(u, t) { RankOrder(u, t, 0, n); }
  }

  function Combinations(n: nat, k: nat): (s: seq<Tuple>)
    ensures |s| == Choose(n, k)
  {
    seq(Choose(n, k), v requires 0 <= v < Choose(n, k) => Unrank(v, k, 0, n))
  }

  /** Every k-subset once, in order. */
  lemma {:induction false} CombinationsEnumerate(n: nat, k: nat)
    ensures Enumerates(Combinations(n, k), k, t => Increasing(t) && Within(t, n))
  {
    var valid := t => Increasing(t) && Within(t, n);
    var rank := t => if Subset(t, 0, n) then Rank(t, 0, n) else -1;
    forall t: Tuple ensures valid(t) <==> Subset(t, 0, n) { SubsetMeans(t, 0, n); }
    forall t: Tuple | |t| == k && valid(t) ensures 0 <= rank(t) < Choose(n, k) { RankBound(t, 0, n); }
    forall t: Tuple, u: Tuple | |t| == k && |u| == k && valid(t) && valid(u) && Less(t, u)
      ensures rank(t) < rank(u)
    {
      RankOrder(t, u, 0, n);
    }
    RankedRunEnumerates(Combinations(n, k), k, valid, rank);
  }

  // ---- Successor ----------------------------------------------------------

  lemma {:induction false} FirstRank(t: Tuple, lo: nat, n: nat)
    requires forall h | 0 <= h < |t| :: t[h] == lo + h < n
    ensures Subset(t, lo, n) && Rank(t, lo, n) == 0
    decreases |t|
  {
    if t != [] { FirstRank(t[1..], lo + 1, n); }
  }

  lemma {:induction false} LastRank(t: Tuple, lo: nat, n: nat)
    requires lo + |t| <= n && forall h | 0 <= h < |t| :: t[h] == n - |t| + h
    ensures Subset(t, lo, n) && Rank(t, lo, n) == Choose(n - lo, |t|) - 1
    decreases n - lo
  {
    if t != [] {
      if lo + |t| == n {
        ChooseTooMany(n - lo - 1, |t|);
        LastRank(t[1..], lo + 1, n);
      } else {
        LastRank(t, lo + 1, n);
      }
    }
  }

  /** Entry i goes up by one, the entries after it, which were as far right as they
      can be, line up right behind it: the next subset. */
  lemma {:induction false} Successor(t: Tuple, u: Tuple, i: nat, lo: nat, n: nat)
    requires i < |t| == |u| && Subset(t, lo, n)
    requires t[..i] == u[..i] && t[i] + |t| - i < n
    requires forall h | i < h < |t| :: t[h] == n - |t| + h
    requires forall h | i <= h < |t| :: u[h] == t[i] + 1 + (h - i)
    ensures Subset(u, lo, n) && Rank(u, lo, n) == Rank(t, lo, n) + 1
    decreases n - lo
  {
    assert i > 0 ==> t[0] == t[..i][0] == u[..i][0] == u[0];
    if t[0] > lo {
      Successor(t, u, i, lo + 1, n);
    } else if i > 0 {
      assert t[1..][..i - 1] == t[..i][1..] == u[..i][1..] == u[1..][..i - 1];
      Successor(t[1..], u[1..], i - 1, lo + 1, n);
    } else {
      LastRank(t[1..], lo + 1, n);
      FirstRank(u, lo + 1, n);
    }
  }

  /** The scan has come down from the right to slot i without advancing any entry:
      the entries after i were all as far right as they can be, and by now stand
      right behind entry i's successor if there is a gap after i. */
  ghost predicate Scanned(t: Tuple, v: Tuple, i: nat, n: nat) {
    && i < |t| == |v|
    && (forall h | 0 <= h <= i :: v[h] == t[h])
    && (forall h | i < h < |t| :: t[h] == n - |t| + h)
    && (i + 1 < |t| ==>
          if t[i] + 1 < t[i + 1] then forall h | i < h < |t| :: v[h] == t[i] + 1 + (h - i)
          else forall h | i < h < |t| :: v[h] == t[h])
  }

  /** Writing the successor of entry i completes the next subset. */
  lemma {:induction false} Advance(t: Tuple, u: Tuple, i: nat, n: nat)
    requires Subset(t, 0, n) && i < |t| == |u| && u[i] == t[i] + 1 && Scanned(t, u[i := t[i]], i, n)
    requires if i + 1 == |t| then t[i] + 1 < n else t[i] + 1 < t[i + 1]
    ensures Subset(u, 0, n) && Rank(u, 0, n) == Rank(t, 0, n) + 1
  {
    var v := u[i := t[i]];
    forall h | 0 <= h < |t| && h != i ensures u[h] == v[h] {}
    assert t[..i] == u[..i];
    Successor(t, u, i, 0, n);
  }

  lemma {:induction false} ScannedMaximal(t: Tuple, v: Tuple, i: nat, n: nat)
    requires Subset(t, 0, n) && Scanned(t, v, i, n)
    requires if i + 1 == |t| then t[i] + 1 >= n else t[i] + 1 == v[i + 1]
    ensures t[i] == v[i] == n - |t| + i
    ensures i > 0 ==> t[i - 1] < t[i]
    ensures forall h | i <= h < |t| :: v[h] == t[h]
  {
    SubsetMeans(t, 0, n);
  }

  // ---- The state machine --------------------------------------------------

  class State<T> {
    const list: seq<T>
    const vec: array<nat>

    ghost function Tails(): (t: Tuple)
      reads vec
    {
      vec[..]
    }

    /** k_conses: the first k tails, for k no larger than the list. */
    constructor (list: seq<T>, k: nat)
      requires 0 < k <= |list|
      ensures fresh(vec) && this.list == list && vec.Length == k
      ensures Subset(Tails(), 0, |list|) && Rank(Tails(), 0, |list|) == 0
    {
      this.list := list;
      vec := new nat[k](i => i);
      new;
      FirstRank(Tails(), 0, |list|);
    }

    /** combi_clone's copy: the same list, a private vector of tails. */
    constructor Copy(from: State<T>)
      ensures fresh(vec) && list == from.list && vec.Length == from.vec.Length && vec[..] == from.vec[..]
    {
      list := from.list;
      vec := new nat[from.vec.Length](i requires 0 <= i < from.vec.Length reads from.vec => from.vec[i]);
      new;
      assert vec[..] == from.vec[..];
    }

    function Rest(p: nat): nat {
      if p < |list| then p + 1 else |list|
    }

    predicate Ended()
      requires vec.Length > 0
      reads vec
    {
      vec[0] >= |list|
    }

    /** The inner loop: lay consecutive tails, starting at the one named from, over the
        slots i and up. */
    method Cascade(i: nat, from: nat)
      requires i < vec.Length && from + (vec.Length - i) <= |list|
      modifies vec
      ensures forall h | 0 <= h < i :: vec[h] == old(vec[h])
      ensures forall h | i <= h < vec.Length :: vec[h] == from + (h - i)
    {
      var j, tail := i, from;
      while j < vec.Length
        invariant i <= j <= vec.Length
        invariant forall h | 0 <= h < i :: vec[h] == old(vec[h])
        invariant forall h | i <= h < j :: vec[h] == from + (h - i)
        invariant j < vec.Length ==> tail == from + (j - i)
      {
        vec[j] := tail;
        j, tail := j + 1, Rest(tail);
      }
    }

    /** comb_gen_fun_common: step to the next subset, or clear the first tail. */
    method Step()
      requires vec.Length > 0 && Subset(Tails(), 0, |list|)
      modifies vec
      ensures !Ended() ==> Subset(Tails(), 0, |list|) && Rank(Tails(), 0, |list|) == old(Rank(Tails(), 0, |list|)) + 1
      ensures Ended() ==> old(Rank(Tails(), 0, |list|)) == Choose(|list|, vec.Length) - 1
    {
      ghost var t, n := Tails(), |list|;
      var nn := vec.Length;
      SubsetMeans(t, 0, n);
      var i := nn - 1;
      while i >= 0
        invariant -1 <= i < nn
        invariant i < 0 ==> forall h | 0 <= h < nn :: t[h] == n - nn + h
        invariant i >= 0 ==> Scanned(t, Tails(), i, n)
      {
        var re := Rest(vec[i]);
        if (i == nn - 1 && re < |list|) || (i < nn - 1 && re != vec[i + 1]) {
          ghost var v := Tails();
          vec[i] := re;
          assert Tails()[i := t[i]] == v;
          Advance(t, Tails(), i, n);
          return;
        }
        ScannedMaximal(t, Tails(), i, n);
        if i > 0 { Reset(i, t); }
        i := i - 1;
      }
      LastRank(t, 0, n);
      vec[0] := |list|;
    }

    /** The rest of the loop body: tail i cannot move, so tail i - 1 will have to, and the
        tails from i on are laid out again after it. */
    method Reset(i: nat, ghost t: Tuple)
      requires 0 < i < vec.Length && Scanned(t, Tails(), i, |list|) && t[i] == |list| - vec.Length + i
      requires t[i - 1] < t[i] && forall h | i <= h < vec.Length :: vec[h] == t[h]
      modifies vec
      ensures Scanned(t, Tails(), i - 1, |list|)
    {
      var nxt := vec[i - 1];
      var nxtR := Rest(nxt);
      var nxtRR := Rest(nxtR);
      if nxtR != vec[i] && nxtRR < |list| {
        Cascade(i, nxtRR);
      }
    }

    /** comb_list_gen_fun: the heads of the tails, then one step. */
    method GenFun() returns (out: seq<T>)
      requires vec.Length > 0 && Subset(Tails(), 0, |list|)
      modifies vec
      ensures old(Within(Tails(), |list|)) && out == Pick(list, old(Tails()))
      ensures !Ended() ==> Subset(Tails(), 0, |list|) && Rank(Tails(), 0, |list|) == old(Rank(Tails(), 0, |list|)) + 1
      ensures Ended() ==> old(Rank(Tails(), 0, |list|)) == Choose(|list|, vec.Length) - 1
    {
      SubsetMeans(Tails(), 0, |list|);
      out := [];
      for i := 0 to vec.Length
        invariant |out| == i && forall h | 0 <= h < i :: out[h] == list[vec[h]]
      {
        out := out + [list[vec[i]]];
      }
      Step();
    }

    /** comb_while_fun: the run goes on while the first tail is nonempty. */
    method WhileFun() returns (more: bool)
      ensures more == (vec.Length > 0 && !Ended())
    {
      more := vec.Length > 0 && vec[0] < |list|;
    }
  }

  function SubsetAt<T>(items: seq<T>, k: nat, v: nat): seq<T>
    requires v < Choose(|items|, k)
  {
    SubsetMeans(Unrank(v, k, 0, |items|), 0, |items|);
    Pick(items, Unrank(v, k, 0, |items|))
  }

  /** The selections from items, one per k-subset of its positions. */
  function Subsets<T>(items: seq<T>, k: nat): (r: seq<seq<T>>)
    ensures |r| == Choose(|items|, k)
  {
    seq(Choose(|items|, k), v requires 0 <= v < Choose(|items|, k) => SubsetAt(items, k, v))
  }

  method Run<T>(list: seq<T>, k: nat) returns (out: seq<seq<T>>)
    requires 0 < k <= |list|
    ensures out == Subsets(list, k)
  {
    var state := new State(list, k);
    out := [];
    ChoosePositive(|list|, k);
    var more := state.WhileFun();
    while more
      invariant fresh(state.vec) && state.list == list && state.vec.Length == k
      invariant more == !state.Ended()
      invariant more ==> Subset(state.Tails(), 0, |list|) && Rank(state.Tails(), 0, |list|) == |out|
      invariant !more ==> |out| == Choose(|list|, k)
      invariant forall v | 0 <= v < |out| :: v < Choose(|list|, k) && out[v] == SubsetAt(list, k, v)
      decreases Choose(|list|, k) - |out|, more
    {
      ghost var v, t := |out|, state.Tails();
      RankBound(t, 0, |list|);
      RankInjective(t, Unrank(v, k, 0, |list|), |list|);
      var item := state.GenFun();
      out := out + [item];
      more := state.WhileFun();
    }
  }

  /** out goes through the increasing tuples of k positions, each once, in lexicographic order,
      and holds the items at each. */
  ghost predicate ListsSubsets<T>(list: seq<T>, k: nat, out: seq<seq<T>>) {
    exists ts: seq<Tuple> ::
      Enumerates(ts, k, t => Increasing(t) && Within(t, |list|)) && Selects(list, ts, out)
  }

  lemma {:induction false} SubsetsLists<T>(list: seq<T>, k: nat)
    ensures ListsSubsets(list, k, Subsets(list, k))
  {
    var ts := Combinations(|list|, k);
    CombinationsEnumerate(|list|, k);
    forall v | 0 <= v < |ts| ensures Within(ts[v], |list|) { SubsetMeans(ts[v], 0, |list|); }
    assert Enumerates(ts, k, t => Increasing(t) && Within(t, |list|)) && Selects(list, ts, Subsets(list, k));
  }

  /** comb on a list. */
  method CombList<T>(list: seq<T>, k: int) returns (r: Result<seq<seq<T>>>)
    ensures r == if k < 0 then Error else Ok(Subsets(list, k))
    ensures k >= 0 ==> ListsSubsets(list, k, r.value)
  {
    if k < 0 { return Error; }
    SubsetsLists(list, k);
    if k == 0 {
      assert SubsetAt(list, 0, 0) == [] && Subsets(list, 0) == [[]];
      return Ok([[]]);
    }
    if k > |list| {
      ChooseTooMany(|list|, k);
      return Ok([]);
    }
    var out := Run(list, k);
    r := Ok(out);
  }
}
