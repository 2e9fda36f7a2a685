/** prod_common: call a function on every tuple of a Cartesian product by stepping a
    row of iterators like an odometer. An iterator is the position of its next item. */
module Prod {
  import opened Nonlinear
  import opened Lex
  import opened MixedRadix

  /** One item from each list. */
  function Choose<T>(lists: seq<seq<T>>, c: seq<int>): (r: seq<T>)
    requires |c| == |lists| && forall i | 0 <= i < |c| :: 0 <= c[i] < |lists[i]|
    ensures |r| == |lists| && forall i | 0 <= i < |c| :: r[i] == lists[i][c[i]]
  {
    seq(|c|, i requires 0 <= i < |c| => lists[i][c[i]])
  }

  function Lengths<T>(lists: seq<seq<T>>): (r: seq<nat>)
    ensures |r| == |lists| && forall i | 0 <= i < |r| :: r[i] == |lists[i]|
  {
    if lists == [] then [] else [|lists[0]|] + Lengths(lists[1..])
  }

  // ---- The reference: nested loops ----------------------------------------

  function PrefixEach<T>(x: T, tails: seq<seq<T>>): (r: seq<seq<T>>)
    ensures |r| == |tails|
  {
    seq(|tails|, i requires 0 <= i < |tails| => [x] + tails[i])
  }

  function Loop<T>(xs: seq<T>, tails: seq<seq<T>>): seq<seq<T>> {
    if xs == [] then [] else PrefixEach(xs[0], tails) + Loop(xs[1..], tails)
  }

  /** For each item of the first list, in order, every product of the others. */
  function NestedLoops<T>(lists: seq<seq<T>>): seq<seq<T>> {
    if lists == [] then [[]] else Loop(lists[0], NestedLoops(lists[1..]))
  }

  lemma {:induction false} LoopAt<T>(xs: seq<T>, tails: seq<seq<T>>, q: nat, m: nat)
    requires q < |xs| && m < |tails|
    ensures 0 <= q * |tails| + m < |Loop(xs, tails)|
    ensures Loop(xs, tails)[q * |tails| + m] == [xs[q]] + tails[m]
  {
    LoopLength(xs, tails);
    if q > 0 {
      LoopAt(xs[1..], tails, q - 1, m);
      Distribute(q - 1, 1, |tails|);
      var i := (q - 1) * |tails| + m;
      assert Loop(xs, tails)[|tails| + i] == Loop(xs[1..], tails)[i];
    }
  }

  lemma {:induction false} LoopLength<T>(xs: seq<T>, tails: seq<seq<T>>)
    ensures |Loop(xs, tails)| == |xs| * |tails|
  {
    if xs != [] {
      LoopLength(xs[1..], tails);
      Distribute(|xs| - 1, 1, |tails|);
    }
  }

  lemma {:induction false} NestedLoopsLength<T>(lists: seq<seq<T>>)
    ensures |NestedLoops(lists)| == Total(Lengths(lists))
  {
    if lists != [] {
      NestedLoopsLength(lists[1..]);
      LoopLength(lists[0], NestedLoops(lists[1..]));
      assert Lengths(lists)[1..] == Lengths(lists[1..]);
    }
  }

  /** The v-th tuple of the nested loops is the one the counter value v selects. */
  lemma {:induction false} NestedLoopsAt<T>(lists: seq<seq<T>>, c: seq<int>)
    requires Valid(c, Lengths(lists))
    ensures 0 <= Value(c, Lengths(lists)) < |NestedLoops(lists)|
    ensures NestedLoops(lists)[Value(c, Lengths(lists))] == Choose(lists, c)
  {
    NestedLoopsLength(lists);
    ValueBounds(c, Lengths(lists));
    if lists != [] {
      var rest, d := lists[1..], c[1..];
      ValidRest(lists, c);
      NestedLoopsAt(rest, d);
      NestedLoopsLength(rest);
      LoopAt(lists[0], NestedLoops(rest), c[0], Value(d, Lengths(rest)));
    }
  }

  lemma {:induction false} ValidRest<T>(lists: seq<seq<T>>, c: seq<int>)
    requires lists != [] && Valid(c, Lengths(lists))
    ensures Lengths(lists)[1..] == Lengths(lists[1..]) && Valid(c[1..], Lengths(lists[1..]))
    ensures 0 <= c[0] < |lists[0]| && Choose(lists, c) == [lists[0][c[0]]] + Choose(lists[1..], c[1..])
  {
    var d := c[1..];
    forall i | 0 <= i < |d| ensures 0 <= d[i] < Lengths(lists[1..])[i] { assert d[i] == c[i + 1]; }
    ChooseRest(lists, c);
  }

  lemma {:induction false} ChooseRest<T>(lists: seq<seq<T>>, c: seq<int>)
    requires |c| == |lists| > 0 && forall i | 0 <= i < |c| :: 0 <= c[i] < |lists[i]|
    ensures forall i | 0 <= i < |c| - 1 :: 0 <= c[1..][i] < |lists[1..][i]|
    ensures Choose(lists, c) == [lists[0][c[0]]] + Choose(lists[1..], c[1..])
  {
  }

  lemma {:induction false} EmptyListNoTuples<T>(lists: seq<seq<T>>, i: nat)
    requires i < |lists| && lists[i] == []
    ensures NestedLoops(lists) == []
  {
    LoopLength(lists[0], NestedLoops(lists[1..]));
    if i > 0 { EmptyListNoTuples(lists[1..], i - 1); }
  }

  // ---- The odometer -------------------------------------------------------

  /** Step the rightmost iterator that has more items, rewinding those after it;
      report whether any had. */
  method StepIterators<T>(lists: seq<seq<T>>, work: array<int>) returns (more: bool)
    requires work.Length == |lists| > 0 && Valid(work[..], Lengths(lists))
    modifies work
    ensures more ==> Valid(work[..], Lengths(lists))
    ensures more ==> Value(work[..], Lengths(lists)) == old(Value(work[..], Lengths(lists))) + 1
    ensures !more ==> old(Value(work[..], Lengths(lists))) == Total(Lengths(lists)) - 1
  {
    ghost var was, r := work[..], Lengths(lists);
    var i := |lists| - 1;
    while true
      invariant 0 <= i < |lists| && Rewound(was, work[..], r, i)
      decreases i
    {
      var step := work[i] + 1;
      if step < |lists[i]| {
        work[i] := step;
        Carry(was, work[..], r, i);
        return true;
      }
      if i == 0 {
        ValueMax(was, r);
        return false;
      }
      work[i] := 0;
      i := i - 1;
    }
  }

  /** The iterators after i had no more items and are rewound; the others are as they were. */
  ghost predicate Rewound(was: seq<int>, work: seq<int>, r: seq<nat>, i: nat) {
    && i < |work| == |was| == |r|
    && (forall h | 0 <= h <= i :: work[h] == was[h])
    && forall h | i < h < |work| :: work[h] == 0 && was[h] + 1 == r[h]
  }

  /** One call for each tuple in turn; argument i is the item of list i at the tuple's entry. */
  ghost predicate Takes<T>(lists: seq<seq<T>>, ts: seq<Tuple>, calls: seq<seq<T>>) {
    && |calls| == |ts|
    && forall v | 0 <= v < |ts| ::
         && |calls[v]| == |ts[v]| == |lists|
         && forall i | 0 <= i < |lists| :: 0 <= ts[v][i] < |lists[i]| && calls[v][i] == lists[i][ts[v][i]]
  }

  predicate EachWithin<T>(t: Tuple, lists: seq<seq<T>>) {
    |t| == |lists| && forall i | 0 <= i < |t| :: 0 <= t[i] < |lists[i]|
  }

  /** The calls go through all tuples of one position in each list, each once, in lexicographic
      order. */
  ghost predicate CoversProduct<T>(lists: seq<seq<T>>, calls: seq<seq<T>>) {
    exists ts: seq<Tuple> :: Enumerates(ts, |lists|, t => EachWithin(t, lists)) && Takes(lists, ts, calls)
  }

  lemma {:induction false} NestedCovers<T>(lists: seq<seq<T>>)
    ensures CoversProduct(lists, NestedLoops(lists))
  {
    TuplesEnumerate(lists);
    NestedTakes(lists);
    var ts := All(Lengths(lists));
    assert Enumerates(ts, |lists|, t => EachWithin(t, lists)) && Takes(lists, ts, NestedLoops(lists));
  }

  lemma {:induction false} TuplesEnumerate<T>(lists: seq<seq<T>>)
    ensures Enumerates(All(Lengths(lists)), |lists|, t => EachWithin(t, lists))
  {
    var r := Lengths(lists);
    AllEnumerates(r);
    forall v | 0 <= v < |All(r)| ensures EachWithin(All(r)[v], lists) { UnrankValid(v, r); }
    forall t: Tuple | |t| == |lists| && EachWithin(t, lists) ensures t in All(r) {
      assert (c => Valid(c, r))(t);
    }
  }

  lemma {:induction false} NestedTakes<T>(lists: seq<seq<T>>)
    ensures Takes(lists, All(Lengths(lists)), NestedLoops(lists))
  {
    var r := Lengths(lists);
    NestedLoopsLength(lists);
    forall v | 0 <= v < |All(r)|
      ensures Valid(All(r)[v], r) && NestedLoops(lists)[v] == Choose(lists, All(r)[v])
    {
      UnrankValid(v, r);
      NestedLoopsAt(lists, All(r)[v]);
    }
  }

  /** The calls and the collected results; f may depend on the calls made before. */
  method ProdCommon<T, R>(f: (seq<seq<T>>, seq<T>) -> R, lists: seq<seq<T>>)
    returns (calls: seq<seq<T>>, out: seq<R>)
    ensures calls == if lists == [] then [] else NestedLoops(lists)
    ensures lists != [] ==> CoversProduct(lists, calls)
    ensures |out| == |calls| && forall v | 0 <= v < |out| :: out[v] == f(calls[..v], calls[v])
  {
    calls, out := [], [];
    if |lists| == 0 { return; }
    NestedCovers(lists);
    if |lists| == 1 {
      calls, out := MapOne(f, lists);
      return;
    }
    var i := 0;
    while i < |lists|
      invariant i <= |lists| && forall h | 0 <= h < i :: lists[h] != []
    {
      if lists[i] == [] {
        EmptyListNoTuples(lists, i);
        return;
      }
      i := i + 1;
    }
    calls, out := Iterate(f, lists);
  }

  /** mapcarv, the case of a single list. */
  method MapOne<T, R>(f: (seq<seq<T>>, seq<T>) -> R, lists: seq<seq<T>>)
    returns (calls: seq<seq<T>>, out: seq<R>)
    requires |lists| == 1
    ensures calls == NestedLoops(lists)
    ensures |out| == |calls| && forall v | 0 <= v < |out| :: out[v] == f(calls[..v], calls[v])
  {
    calls, out := [], [];
    assert lists[1..] == [] && NestedLoops(lists[1..]) == [[]];
    LoopLength(lists[0], [[]]);
    for j := 0 to |lists[0]|
      invariant |calls| == |out| == j && forall v | 0 <= v < j :: calls[v] == [lists[0][v]]
      invariant forall v | 0 <= v < j :: out[v] == f(calls[..v], calls[v])
    {
      var args := [lists[0][j]];
      calls, out := Call(f, args, calls, out);
    }
    forall v | 0 <= v < |calls| ensures calls[v] == NestedLoops(lists)[v] {
      LoopAt(lists[0], [[]], v, 0);
    }
  }

  method Call<T, R>(f: (seq<seq<T>>, seq<T>) -> R, args: seq<T>, calls: seq<seq<T>>, out: seq<R>)
    returns (calls': seq<seq<T>>, out': seq<R>)
    requires |out| == |calls| && forall v | 0 <= v < |out| :: out[v] == f(calls[..v], calls[v])
    ensures calls' == calls + [args] && |out'| == |calls'|
    ensures forall v | 0 <= v < |out'| :: out'[v] == f(calls'[..v], calls'[v])
  {
    var ret := f(calls, args);
    calls', out' := calls + [args], out + [ret];
    forall v | 0 <= v < |out'| ensures out'[v] == f(calls'[..v], calls'[v]) {
      assert calls'[..v] == calls[..v];
    }
  }

  method Iterate<T, R>(f: (seq<seq<T>>, seq<T>) -> R, lists: seq<seq<T>>)
    returns (calls: seq<seq<T>>, out: seq<R>)
    requires lists != [] && forall h | 0 <= h < |lists| :: lists[h] != []
    ensures calls == NestedLoops(lists)
    ensures |out| == |calls| && forall v | 0 <= v < |out| :: out[v] == f(calls[..v], calls[v])
  {
    ghost var r, all := Lengths(lists), NestedLoops(lists);
    var work := new int[|lists|](_ => 0);
    calls, out := [], [];
    ValueZeros(work[..], r);
    NestedLoopsLength(lists);
    ValueBounds(work[..], r);
    var more := true;
    while more
      invariant more ==> Valid(work[..], r) && |calls| == Value(work[..], r) < |all|
      invariant !more ==> |calls| == |all|
      invariant calls == all[..|calls|]
      invariant |out| == |calls| && forall v | 0 <= v < |out| :: out[v] == f(calls[..v], calls[v])
      decreases |all| - |calls|, more
    {
      NestedLoopsAt(lists, work[..]);
      var args := Choose(lists, work[..]);
      calls, out := Call(f, args, calls, out);
      more := StepIterators(lists, work);
      if more { ValueBounds(work[..], r); }
    }
  }
}
