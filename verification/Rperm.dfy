/** rperm: k-tuples with repetition, an odometer over tails of one list. A tail is
    named by the position where it starts; the empty tail starts at the length. */
module Rperm {
  import opened Wrappers
  import opened Nonlinear
  import opened Lex
  import opened MixedRadix
  import opened Selection

  function Radix(n: nat, k: nat): (r: seq<nat>)
    ensures |r| == k && forall i | 0 <= i < k :: r[i] == n
  {
    if k == 0 then [] else [n] + Radix(n, k - 1)
  }

  function Power(n: nat, k: nat): nat {
    if k == 0 then 1 else n * Power(n, k - 1)
  }

  lemma {:induction false} TotalIsPower(n: nat, k: nat)
    ensures Total(Radix(n, k)) == Power(n, k)
  {
    if k > 0 { TotalIsPower(n, k - 1); }
  }

  function Tuples(n: nat, k: nat): (s: seq<Tuple>) {
    All(Radix(n, k))
  }

  lemma {:induction false} ValidIsWithin(t: Tuple, n: nat, k: nat)
    requires |t| == k
    ensures MixedRadix.Valid(t, Radix(n, k)) <==> Within(t, n)
  {
  }

  /** The odometer's list has all n^k tuples over n positions, in order. */
  lemma {:induction false} TuplesEnumerate(n: nat, k: nat)
    ensures Enumerates(Tuples(n, k), k, t => Within(t, n)) && |Tuples(n, k)| == Power(n, k)
  {
    AllEnumerates(Radix(n, k));
    TotalIsPower(n, k);
    assert Enumerates(Tuples(n, k), k, t => MixedRadix.Valid(t, Radix(n, k)));
    forall t: Tuple | |t| == k && Within(t, n) ensures t in Tuples(n, k) {
      ValidIsWithin(t, n, k);
      assert (c => MixedRadix.Valid(c, Radix(n, k)))(t);
    }
    forall i | 0 <= i < |Tuples(n, k)| ensures |Tuples(n, k)[i]| == k && Within(Tuples(n, k)[i], n) {
      UnrankValid(i, Radix(n, k));
    }
  }

  function TupleAt<T>(items: seq<T>, k: nat, v: nat): seq<T>
    requires v < Total(Radix(|items|, k))
  {
    UnrankValid(v, Radix(|items|, k));
    Pick(items, Unrank(v, Radix(|items|, k)))
  }

  /** The selections from items, one per tuple. */
  function Repeated<T>(items: seq<T>, k: nat): (r: seq<seq<T>>)
    ensures |r| == Total(Radix(|items|, k))
  {
    seq(Total(Radix(|items|, k)), v requires 0 <= v < Total(Radix(|items|, k)) => TupleAt(items, k, v))
  }

  class State<T> {
    const list: seq<T>
    const vec: array<nat>

    ghost predicate Valid()
      reads vec
    {
      && vec.Length > 0
      && vec[0] <= |list|
      && (forall i | 1 <= i < vec.Length :: if vec[0] == |list| then vec[i] == 0 else vec[i] < |list|)
    }

    ghost function Digits(): (d: seq<int>)
      reads vec
      ensures |d| == vec.Length
    {
      seq(vec.Length, i requires 0 <= i < vec.Length reads vec => vec[i])
    }

    ghost function Bounds(): (r: seq<nat>)
      ensures |r| == vec.Length
    {
      Radix(|list|, vec.Length)
    }

    ghost function Position(): int
      reads vec
    {
      Value(Digits(), Bounds())
    }

    constructor (list: seq<T>, k: nat)
      requires k > 0
      ensures Valid() && fresh(vec) && this.list == list && vec.Length == k && Position() == 0
    {
      this.list := list;
      vec := new nat[k](_ => 0);
      new;
      ValueZeros(Digits(), Bounds());
    }

    /** rpermi_clone's copy: the same list, a private odometer. */
    constructor Copy(from: State<T>)
      requires from.Valid()
      ensures Valid() && fresh(vec) && list == from.list && vec.Length == from.vec.Length && vec[..] == from.vec[..]
      ensures Digits() == from.Digits()
    {
      list := from.list;
      vec := new nat[from.vec.Length](i requires 0 <= i < from.vec.Length reads from.vec => from.vec[i]);
      new;
      assert vec[..] == from.vec[..];
    }

    /** rperm_while_fun: is the leading tail nonempty? */
    method WhileFun() returns (more: bool)
      requires Valid()
      ensures more == (vec[0] < |list|)
      ensures more == (Position() < Total(Bounds()))
      ensures Position() <= Total(Bounds())
    {
      more := vec[0] < |list|;
      if more {
        ValueBounds(Digits(), Bounds());
      } else {
        assert Digits()[1..] == Zeros(vec.Length - 1);
        ValueZeros(Digits()[1..], Bounds()[1..]);
      }
    }

    /** rperm_gen_fun: collect the heads, then step the odometer from the right. */
    method GenFun() returns (out: seq<T>)
      requires Valid() && vec[0] < |list|
      modifies vec
      ensures Valid() && Position() == old(Position()) + 1
      ensures old(Within(Digits(), |list|)) && out == Pick(list, old(Digits()))
    {
      ghost var was, r := Digits(), Bounds();
      out := [];
      var i := 0;
      while i < vec.Length
        invariant i <= vec.Length && |out| == i
        invariant forall h | 0 <= h < i :: out[h] == list[was[h]]
        invariant Valid() && vec[0] < |list| && Digits() == was
      {
        out := out + [list[vec[i]]];
        i := i + 1;
      }
      Step(was);
    }

    method Step(ghost was: seq<int>)
      requires Valid() && vec[0] < |list| && was == Digits()
      modifies vec
      ensures Valid() && Position() == old(Position()) + 1
    {
      ghost var r := Bounds();
      var i := vec.Length - 1;
      while true
        invariant 0 <= i < vec.Length
        invariant forall h | 0 <= h <= i :: vec[h] == was[h] < |list|
        invariant forall h | i < h < vec.Length :: vec[h] == 0 && was[h] + 1 == |list|
        decreases i
      {
        vec[i] := vec[i] + 1;
        if vec[i] == |list| && i > 0 {
          vec[i] := 0;
        } else {
          break;
        }
        i := i - 1;
      }
      assert Digits()[..i] == was[..i];
      Increment(was, Digits(), r, i);
    }
  }

  method Run<T>(list: seq<T>, k: nat) returns (out: seq<seq<T>>)
    requires k > 0
    ensures out == Repeated(list, k)
  {
    var state := new State(list, k);
    out := [];
    var more := state.WhileFun();
    while more
      invariant state.Valid() && fresh(state.vec) && state.list == list && state.vec.Length == k
      invariant more == (state.vec[0] < |list|) == (state.Position() < Total(Radix(|list|, k)))
      invariant |out| == state.Position() <= Total(Radix(|list|, k))
      invariant forall v | 0 <= v < |out| :: out[v] == TupleAt(list, k, v)
      decreases Total(Radix(|list|, k)) - |out|
    {
      ghost var v, r := state.Position(), Radix(|list|, k);
      UnrankValid(v, r);
      ValueInjective(Unrank(v, r), state.Digits(), r);
      var item := state.GenFun();
      out := out + [item];
      more := state.WhileFun();
    }
  }

  /** out goes through all tuples of k positions, each once, in lexicographic order, and holds
      the items at each. */
  ghost predicate ListsTuples<T>(list: seq<T>, k: nat, out: seq<seq<T>>) {
    exists ts: seq<Tuple> :: Enumerates(ts, k, t => Within(t, |list|)) && Selects(list, ts, out)
  }

  lemma {:induction false} RepeatedLists<T>(list: seq<T>, k: nat)
    ensures ListsTuples(list, k, Repeated(list, k))
  {
    var ts := Tuples(|list|, k);
    TuplesEnumerate(|list|, k);
    forall v | 0 <= v < |ts| ensures Repeated(list, k)[v] == TupleAt(list, k, v) && Within(ts[v], |list|) {
      UnrankValid(v, Radix(|list|, k));
    }
    assert Enumerates(ts, k, t => Within(t, |list|)) && Selects(list, ts, Repeated(list, k));
  }

  /** rperm on a list. */
  method RpermList<T>(list: seq<T>, k: int) returns (r: Result<seq<seq<T>>>)
    ensures r == if k < 0 then Error else Ok(Repeated(list, k))
    ensures k >= 0 ==> ListsTuples(list, k, r.value)
  {
    if k < 0 { return Error; }
    RepeatedLists(list, k);
    if k == 0 {
      assert Radix(|list|, 0) == [] && TupleAt(list, 0, 0) == [];
      assert Repeated(list, 0) == [[]];
      return Ok([[]]);
    }
    if list == [] {
      assert Radix(0, k)[0] == 0;
      return Ok([]);
    }
    var out := Run(list, k);
    r := Ok(out);
  }
}
