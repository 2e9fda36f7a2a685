/** rcomb: k-multisets of a sequence. The state is a list of tails, least significant
    first; a tail is named by the position where it starts. */
module Rcomb {
  import opened Wrappers
  import opened Lex
  import opened Selection
  import opened Binomial

  // ---- Nondecreasing tuples and their rank --------------------------------

  /** t is nondecreasing, within [lo, n). */
  predicate Multiset(t: Tuple, lo: nat, n: nat)
    decreases |t|
  {
    t == [] || (lo <= t[0] < n && Multiset(t[1..], t[0], n))
  }

  ghost predicate Monotone(t: Tuple) {
    forall i, j | 0 <= i < j < |t| :: t[i] <= t[j]
  }

  lemma {:induction false} MultisetMeans(t: Tuple, lo: nat, n: nat)
    ensures Multiset(t, lo, n) <==> Monotone(t) && forall i | 0 <= i < |t| :: lo <= t[i] < n
    decreases |t|
  {
    if t != [] && t[0] >= 0 {
      var u := t[1..];
      MultisetMeans(u, t[0], n);
      assert forall i | 0 < i < |t| :: t[i] == u[i - 1];
      if Monotone(t) && forall i | 0 <= i < |t| :: lo <= t[i] < n {
        forall i | 0 <= i < |u| ensures t[0] <= u[i] < n { assert u[i] == t[i + 1]; }
        assert Monotone(u);
      }
    }
  }

  function Rank(t: Tuple, lo: nat, n: nat): nat
    requires Multiset(t, lo, n)
    decreases n - lo, |t|
  {
    if t == [] then 0
    else if t[0] == lo then Rank(t[1..], lo, n)
    else Multichoose(n - lo, |t| - 1) + Rank(t, lo + 1, n)
  }

  lemma {:induction false} RankBound(t: Tuple, lo: nat, n: nat)
    requires Multiset(t, lo, n) && lo <= n
    ensures Rank(t, lo, n) < Multichoose(n - lo, |t|)
    decreases n - lo, |t|
  {
    if t != [] {
      if t[0] == lo { RankBound(t[1..], lo, n); } else { RankBound(t, lo + 1, n); }
    }
  }

  lemma {:induction false} RankOrder(t: Tuple, u: Tuple, lo: nat, n: nat)
    requires |t| == |u| && Multiset(t, lo, n) && Multiset(u, lo, n) && Less(t, u)
    ensures Rank(t, lo, n) < Rank(u, lo, n)
    decreases n - lo, |t|
  {
    if t[0] == u[0] == lo {
      RankOrder(t[1..], u[1..], lo, n);
    } else if t[0] == lo {
      RankBound(t[1..], lo, n);
    } else {
      RankOrder(t, u, lo + 1, n);
    }
  }

  function Unrank(v: nat, k: nat, lo: nat, n: nat): (t: Tuple)
    requires lo <= n && v < Multichoose(n - lo, k)
    ensures |t| == k && Multiset(t, lo, n) && Rank(t, lo, n) == v
    decreases n - lo, k
  {
    if k == 0 then []
    else if v < Multichoose(n - lo, k - 1) then [lo] + Unrank(v, k - 1, lo, n)
    else Unrank(v - Multichoose(n - lo, k - 1), k, lo + 1, n)
  }

  lemma {:induction false} RankInjective(t: Tuple, u: Tuple, n: nat)
    requires |t| == |u| && Multiset(t, 0, n) && Multiset(u, 0, n) && Rank(t, 0, n) == Rank(u, 0, n)
    ensures t == u
  {
    Trichotomy(t, u);
    if Less(t, u) { RankOrder(t, u, 0, n); }
    if Less(u, t) { RankOrder(u, t, 0, n); }
  }

  function Multisets(n: nat, k: nat): (s: seq<Tuple>)
    ensures |s| == Multichoose(n, k)
  {
    seq(Multichoose(n, k), v requires 0 <= v < Multichoose(n, k) => Unrank(v, k, 0, n))
  }

  /** Every k-multiset once, in order. */
  lemma {:induction false} MultisetsEnumerate(n: nat, k: nat)
    ensures Enumerates(Multisets(n, k), k, t => Monotone(t) && Within(t, n))
  {
    var valid := t => Monotone(t) && Within(t, n);
    var rank := t => if Multiset(t, 0, n) then Rank(t, 0, n) else -1;
    forall t: Tuple ensures valid(t) <==> Multiset(t, 0, n) { MultisetMeans(t, 0, n); }
    forall t: Tuple | |t| == k && valid(t) ensures 0 <= rank(t) < Multichoose(n, k) { RankBound(t, 0, n); }
    forall t: Tuple, u: Tuple | |t| == k && |u| == k && valid(t) && valid(u) && Less(t, u)
      ensures rank(t) < rank(u)
    {
      RankOrder(t, u, 0, n);
    }
    RankedRunEnumerates(Multisets(n, k), k, valid, rank);
  }

  // ---- Successor ----------------------------------------------------------

  lemma {:induction false} FirstRank(t: Tuple, lo: nat, n: nat)
    requires forall h | 0 <= h < |t| :: t[h] == lo < n
    ensures Multiset(t, lo, n) && Rank(t, lo, n) == 0
    decreases |t|
  {
    if t != [] { FirstRank(t[1..], lo, n); }
  }

  lemma {:induction false} LastRank(t: Tuple, lo: nat, n: nat)
    requires lo < n && forall h | 0 <= h < |t| :: t[h] == n - 1
    ensures Multiset(t, lo, n) && Rank(t, lo, n) == Multichoose(n - lo, |t|) - 1
    decreases n - lo, |t|
  {
    if t != [] {
      LastRank(t[1..], n - 1, n);
      if lo + 1 == n {
        LastRank(t[1..], lo, n);
        assert Multichoose(0, |t|) == 0;
      } else {
        LastRank(t, lo + 1, n);
      }
    }
  }

  /** Entry i goes up by one and the entries after it, all at the maximum, drop to the
      same value: the next multiset. */
  lemma {:induction false} Successor(t: Tuple, u: Tuple, i: nat, lo: nat, n: nat)
    requires i < |t| == |u| && Multiset(t, lo, n)
    requires t[..i] == u[..i] && t[i] + 1 < n
    requires forall h | i < h < |t| :: t[h] == n - 1
    requires forall h | i <= h < |t| :: u[h] == t[i] + 1
    ensures Multiset(u, lo, n) && Rank(u, lo, n) == Rank(t, lo, n) + 1
    decreases n - lo, |t|
  {
    assert i > 0 ==> t[0] == t[..i][0] == u[..i][0] == u[0];
    if t[0] > lo {
      Successor(t, u, i, lo + 1, n);
    } else if i > 0 {
      assert t[1..][..i - 1] == t[..i][1..] == u[..i][1..] == u[1..][..i - 1];
      Successor(t[1..], u[1..], i - 1, lo, n);
    } else {
      LastRank(t[1..], lo, n);
      FirstRank(u, lo + 1, n);
    }
  }

  // ---- The state machine --------------------------------------------------

  function Reversed(s: seq<nat>): (t: Tuple)
    ensures |t| == |s| && forall i | 0 <= i < |s| :: t[i] == s[|s| - 1 - i]
  {
    seq(|s|, i requires 0 <= i < |s| => s[|s| - 1 - i])
  }

  lemma {:induction false} Advance(s: seq<nat>, s': seq<nat>, i: nat, n: nat)
    requires i < |s| == |s'| && Multiset(Reversed(s), 0, n)
    requires s[i] + 1 < n && forall h | 0 <= h < i :: s[h] == n - 1
    requires (forall h | 0 <= h <= i :: s'[h] == s[i] + 1) && forall h | i < h < |s| :: s'[h] == s[h]
    ensures Multiset(Reversed(s'), 0, n) && Rank(Reversed(s'), 0, n) == Rank(Reversed(s), 0, n) + 1
  {
    var t, u, p := Reversed(s), Reversed(s'), |s| - 1 - i;
    forall h | 0 <= h < p ensures t[h] == u[h] { assert t[h] == s[|s| - 1 - h] == s'[|s| - 1 - h]; }
    assert t[..p] == u[..p];
    Successor(t, u, p, 0, n);
  }

  class State<T> {
    const list: seq<T>
    const cells: array<nat>

    ghost function Tails(): Tuple
      reads cells
    {
      Reversed(cells[..])
    }

    /** k cells that all hold the whole list. */
    constructor (list: seq<T>, k: nat)
      requires k > 0
      ensures fresh(cells) && this.list == list && cells.Length == k && Ended() == (list == [])
      ensures list != [] ==> Multiset(Tails(), 0, |list|) && Rank(Tails(), 0, |list|) == 0
    {
      this.list := list;
      cells := new nat[k](_ => 0);
      new;
      if list != [] { FirstRank(Tails(), 0, |list|); }
    }

    /** rcombi_clone's copy: the same list, private cells. */
    constructor Copy(from: State<T>)
      ensures fresh(cells) && list == from.list && cells.Length == from.cells.Length && cells[..] == from.cells[..]
    {
      list := from.list;
      cells := new nat[from.cells.Length](i requires 0 <= i < from.cells.Length reads from.cells => from.cells[i]);
      new;
      assert cells[..] == from.cells[..];
    }

    function Rest(p: nat): nat {
      if p < |list| then p + 1 else |list|
    }

    predicate Ended()
      requires cells.Length > 0
      reads cells
    {
      cells[0] >= |list|
    }

    /** The inner loop: the same tail into the first i + 1 cells. */
    method Spread(i: nat, tail: nat)
      requires i < cells.Length
      modifies cells
      ensures forall h | 0 <= h <= i :: cells[h] == tail
      ensures forall h | i < h < cells.Length :: cells[h] == old(cells[h])
    {
      for j := 0 to i + 1
        invariant forall h | 0 <= h < j :: cells[h] == tail
        invariant forall h | j <= h < cells.Length :: cells[h] == old(cells[h])
      {
        cells[j] := tail;
      }
    }

    /** rcomb_gen_fun_common: step to the next multiset, or clear the first cell. The
        write in the else branch never survives: the next round overwrites it. */
    method Step()
      requires cells.Length > 0 && Multiset(Tails(), 0, |list|)
      modifies cells
      ensures !Ended() ==> Multiset(Tails(), 0, |list|) && Rank(Tails(), 0, |list|) == old(Rank(Tails(), 0, |list|)) + 1
      ensures Ended() ==> old(Rank(Tails(), 0, |list|)) == Multichoose(|list|, cells.Length) - 1
    {
      ghost var s, n := cells[..], |list|;
      MultisetMeans(Tails(), 0, n);
      ReversedBounds(s, n);
      var i := 0;
      while i < cells.Length
        invariant i <= cells.Length
        invariant forall h | 0 <= h < i :: s[h] == n - 1
        invariant forall h | i <= h < cells.Length :: cells[h] == s[h] < n
      {
        var curr := cells[i];
        var currRest := Rest(curr);
        if currRest < |list| {
          Spread(i, currRest);
          Advance(s, cells[..], i, n);
          return;
        } else if i + 1 < cells.Length {
          var next := cells[i + 1];
          if curr != next {
            cells[i] := Rest(next);
          }
        }
        i := i + 1;
      }
      LastRank(Reversed(s), 0, n);
      cells[0] := |list|;
    }

    /** rcomb_list_gen_fun: the heads of the tails, last cell first, then one step. */
    method GenFun() returns (out: seq<T>)
      requires cells.Length > 0 && Multiset(Tails(), 0, |list|)
      modifies cells
      ensures old(Within(Tails(), |list|)) && out == Pick(list, old(Tails()))
      ensures !Ended() ==> Multiset(Tails(), 0, |list|) && Rank(Tails(), 0, |list|) == old(Rank(Tails(), 0, |list|)) + 1
      ensures Ended() ==> old(Rank(Tails(), 0, |list|)) == Multichoose(|list|, cells.Length) - 1
    {
      MultisetMeans(Tails(), 0, |list|);
      ghost var s, t := cells[..], Tails();
      ReversedBounds(s, |list|);
      out := [];
      for i := 0 to cells.Length
        invariant |out| == i && cells[..] == s
        invariant forall h | 0 <= h < i :: out[i - 1 - h] == list[s[h]]
      {
        out := [list[cells[i]]] + out;
      }
      forall h | 0 <= h < |out| ensures out[h] == list[t[h]] {
        assert out[h] == out[|out| - 1 - (|out| - 1 - h)];
      }
      Step();
    }

    /** rcomb_while_fun: the run goes on while the first cell holds a nonempty tail. */
    method WhileFun() returns (more: bool)
      requires cells.Length > 0
      ensures more == !Ended()
    {
      more := cells[0] < |list|;
    }
  }

  lemma {:induction false} ReversedBounds(s: seq<nat>, n: nat)
    requires forall i | 0 <= i < |s| :: 0 <= Reversed(s)[i] < n
    ensures forall i | 0 <= i < |s| :: s[i] < n
  {
    forall i | 0 <= i < |s| ensures s[i] < n {
      assert s[i] == Reversed(s)[|s| - 1 - i];
    }
  }

  function MultisetAt<T>(items: seq<T>, k: nat, v: nat): seq<T>
    requires v < Multichoose(|items|, k)
  {
    MultisetMeans(Unrank(v, k, 0, |items|), 0, |items|);
    Pick(items, Unrank(v, k, 0, |items|))
  }

  /** The selections from items, one per k-multiset of its positions. */
  function Selections<T>(items: seq<T>, k: nat): (r: seq<seq<T>>)
    ensures |r| == Multichoose(|items|, k)
  {
    seq(Multichoose(|items|, k), v requires 0 <= v < Multichoose(|items|, k) => MultisetAt(items, k, v))
  }

  method Run<T>(list: seq<T>, k: nat) returns (out: seq<seq<T>>)
    requires k > 0
    ensures out == Selections(list, k)
  {
    var state := new State(list, k);
    out := [];
    var more := state.WhileFun();
    while more
      invariant fresh(state.cells) && state.list == list && state.cells.Length == k
      invariant more == !state.Ended()
      invariant more ==> Multiset(state.Tails(), 0, |list|) && Rank(state.Tails(), 0, |list|) == |out|
      invariant !more ==> |out| == Multichoose(|list|, k)
      invariant forall v | 0 <= v < |out| :: v < Multichoose(|list|, k) && out[v] == MultisetAt(list, k, v)
      decreases Multichoose(|list|, k) - |out|, more
    {
      ghost var v, t := |out|, state.Tails();
      RankBound(t, 0, |list|);
      RankInjective(t, Unrank(v, k, 0, |list|), |list|);
      var item := state.GenFun();
      out := out + [item];
      more := state.WhileFun();
    }
  }

  /** out goes through the nondecreasing tuples of k positions, each once, in lexicographic
      order, and holds the items at each. */
  ghost predicate ListsMultisets<T>(list: seq<T>, k: nat, out: seq<seq<T>>) {
    exists ts: seq<Tuple> ::
      Enumerates(ts, k, t => Monotone(t) && Within(t, |list|)) && Selects(list, ts, out)
  }

  lemma {:induction false} SelectionsLists<T>(list: seq<T>, k: nat)
    ensures ListsMultisets(list, k, Selections(list, k))
  {
    var ts := Multisets(|list|, k);
    MultisetsEnumerate(|list|, k);
    forall v | 0 <= v < |ts| ensures Within(ts[v], |list|) { MultisetMeans(ts[v], 0, |list|); }
    assert Enumerates(ts, k, t => Monotone(t) && Within(t, |list|)) && Selects(list, ts, Selections(list, k));
  }

  /** rcomb on a list. */
  method RcombList<T>(list: seq<T>, k: int) returns (r: Result<seq<seq<T>>>)
    ensures r == if k < 0 then Error else Ok(Selections(list, k))
    ensures k >= 0 ==> ListsMultisets(list, k, r.value)
  {
    if k < 0 { return Error; }
    SelectionsLists(list, k);
    if k == 0 {
      assert MultisetAt(list, 0, 0) == [] && Selections(list, 0) == [[]];
      return Ok([[]]);
    }
    var out := Run(list, k);
    r := Ok(out);
  }
}
