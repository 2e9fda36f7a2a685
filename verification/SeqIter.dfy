/** The lazy iterators permi, rpermi, combi and rcombi. All four have the same get and
    peek over their own generator state, plus one slot for an item that was peeked. */
module SeqIter {
  import opened Wrappers
  import opened Lex
  import opened MixedRadix
  import opened Selection
  import Binomial
  import Perm
  import Rperm
  import Comb
  import Rcomb

  /** The generator state an iterator owns. */
  datatype Source<T> =
    | PermSource(perm: Perm.State<T>)
    | RpermSource(rperm: Rperm.State<T>)
    | CombSource(comb: Comb.State<T>)
    | RcombSource(rcomb: Rcomb.State<T>)
  {
    function Cells(): object {
      match this
      case PermSource(p) => p.c
      case RpermSource(p) => p.vec
      case CombSource(p) => p.vec
      case RcombSource(p) => p.cells
    }

    ghost predicate Valid()
      reads Cells()
    {
      match this
      case PermSource(p) => p.Valid() && p.Position() <= p.Last()
      case RpermSource(p) => p.Valid() && 0 <= p.Position() <= Total(p.Bounds())
                             && ((p.vec[0] < |p.list|) == (p.Position() < Total(p.Bounds())))
      case CombSource(p) => p.vec.Length > 0 && (p.Ended() || Comb.Subset(p.Tails(), 0, |p.list|))
      case RcombSource(p) => p.cells.Length > 0 && (p.Ended() || Rcomb.Multiset(p.Tails(), 0, |p.list|))
    }

    /** Everything the generator produces from its first step to its first nil. */
    ghost function Items(): seq<seq<T>>
      requires Valid()
      reads Cells()
    {
      match this
      case PermSource(p) => Perm.Arranged(p.vec, p.k)
      case RpermSource(p) => Rperm.Repeated(p.list, p.vec.Length)
      case CombSource(p) => Comb.Subsets(p.list, p.vec.Length)
      case RcombSource(p) => Rcomb.Selections(p.list, p.cells.Length)
    }

    /** How many of them are behind the current state. */
    ghost function Index(): (i: int)
      requires Valid()
      reads Cells()
      ensures 0 <= i <= |Items()|
    {
      match this
      case PermSource(p) => Perm.PositionStart(p); p.Position() + 1
      case RpermSource(p) => p.Position()
      case CombSource(p) =>
        if p.Ended() then Binomial.Choose(|p.list|, p.vec.Length)
        else (Comb.RankBound(p.Tails(), 0, |p.list|); Comb.Rank(p.Tails(), 0, |p.list|))
      case RcombSource(p) =>
        if p.Ended() then Binomial.Multichoose(|p.list|, p.cells.Length)
        else (Rcomb.RankBound(p.Tails(), 0, |p.list|); Rcomb.Rank(p.Tails(), 0, |p.list|))
    }

    /** What is still to come. */
    ghost function Rest(): seq<seq<T>>
      requires Valid()
      reads Cells()
    {
      Items()[Index()..]
    }

    /** What is to come once the end has been reported: only perm forgets its end. */
    ghost function Again(): seq<seq<T>> {
      match this
      case PermSource(p) => if 1 <= p.k <= |p.vec| then Perm.AfterEnd(p.vec, p.k) else []
      case RpermSource(_) => []
      case CombSource(_) => []
      case RcombSource(_) => []
    }

    /** Ask the generator for one item. */
    method Next() returns (r: Option<seq<T>>)
      requires Valid()
      modifies Cells()
      ensures Valid()
      ensures old(Rest()) != [] ==> r == Some(old(Rest())[0]) && Rest() == old(Rest())[1..]
      ensures old(Rest()) == [] ==> r == None && Rest() == Again()
    {
      match this
      case PermSource(p) => r := NextPerm(p);
      case RpermSource(p) => r := NextRperm(p);
      case CombSource(p) => r := NextComb(p);
      case RcombSource(p) => r := NextRcomb(p);
    }

    /** A private copy of the state. */
    method Copy() returns (s: Source<T>)
      requires Valid()
      ensures s.Valid() && fresh(s.Cells()) && s.Rest() == Rest() && s.Again() == Again()
    {
      if PermSource? {
        var q := new Perm.State<T>.Copy(perm);
        s := PermSource(q);
      } else if RpermSource? {
        var q := new Rperm.State<T>.Copy(rperm);
        s := RpermSource(q);
      } else if CombSource? {
        var q := new Comb.State<T>.Copy(comb);
        s := CombSource(q);
      } else {
        var q := new Rcomb.State<T>.Copy(rcomb);
        s := RcombSource(q);
      }
    }
  }

  method NextPerm<T>(p: Perm.State<T>) returns (r: Option<seq<T>>)
    requires PermSource(p).Valid()
    modifies p.c
    ensures PermSource(p).Valid()
    ensures old(PermSource(p).Rest()) != [] ==>
              r == Some(old(PermSource(p).Rest())[0]) && PermSource(p).Rest() == old(PermSource(p).Rest())[1..]
    ensures old(PermSource(p).Rest()) == [] ==> r == None && PermSource(p).Rest() == PermSource(p).Again()
  {
    ghost var all, i := Perm.Arranged(p.vec, p.k), PermSource(p).Index();
    r := None;
    var more := p.WhileFun();
    if more {
      Perm.SelectedIsRanked(p);
      var item := p.GenFun();
      r := Some(item);
      assert item == all[i];
    } else {
      PermAfterEnd(p);
    }
  }

  lemma {:induction false} PermAfterEnd<T>(p: Perm.State<T>)
    requires p.Valid() && p.c[..] == [|p.vec| - 1] + Zeros(p.k - 1)
    ensures PermSource(p).Valid() && PermSource(p).Rest() == PermSource(p).Again()
  {
    Perm.EndValue(|p.vec|, p.k);
    assert p.c[p.k - 1] != -1;
    Perm.WithinLast(p);
  }

  method NextRperm<T>(p: Rperm.State<T>) returns (r: Option<seq<T>>)
    requires RpermSource(p).Valid()
    modifies p.vec
    ensures RpermSource(p).Valid()
    ensures old(RpermSource(p).Rest()) != [] ==>
              r == Some(old(RpermSource(p).Rest())[0]) && RpermSource(p).Rest() == old(RpermSource(p).Rest())[1..]
    ensures old(RpermSource(p).Rest()) == [] ==> r == None && RpermSource(p).Rest() == []
  {
    var more := p.WhileFun();
    r := None;
    if more {
      ghost var v := p.Position();
      UnrankValid(v, p.Bounds());
      ValueInjective(Unrank(v, p.Bounds()), p.Digits(), p.Bounds());
      var item := p.GenFun();
      r := Some(item);
      more := p.WhileFun();
    }
  }

  method NextComb<T>(p: Comb.State<T>) returns (r: Option<seq<T>>)
    requires CombSource(p).Valid()
    modifies p.vec
    ensures CombSource(p).Valid()
    ensures old(CombSource(p).Rest()) != [] ==>
              r == Some(old(CombSource(p).Rest())[0]) && CombSource(p).Rest() == old(CombSource(p).Rest())[1..]
    ensures old(CombSource(p).Rest()) == [] ==> r == None && CombSource(p).Rest() == []
  {
    var more := p.WhileFun();
    r := None;
    if more {
      ghost var n, k, t := |p.list|, p.vec.Length, p.Tails();
      Comb.RankBound(t, 0, n);
      Comb.RankInjective(t, Comb.Unrank(Comb.Rank(t, 0, n), k, 0, n), n);
      var item := p.GenFun();
      r := Some(item);
    }
  }

  method NextRcomb<T>(p: Rcomb.State<T>) returns (r: Option<seq<T>>)
    requires RcombSource(p).Valid()
    modifies p.cells
    ensures RcombSource(p).Valid()
    ensures old(RcombSource(p).Rest()) != [] ==>
              r == Some(old(RcombSource(p).Rest())[0]) && RcombSource(p).Rest() == old(RcombSource(p).Rest())[1..]
    ensures old(RcombSource(p).Rest()) == [] ==> r == None && RcombSource(p).Rest() == []
  {
    var more := p.WhileFun();
    r := None;
    if more {
      ghost var n, k, t := |p.list|, p.cells.Length, p.Tails();
      Rcomb.RankBound(t, 0, n);
      Rcomb.RankInjective(t, Rcomb.Unrank(Rcomb.Rank(t, 0, n), k, 0, n), n);
      var item := p.GenFun();
      r := Some(item);
    }
  }

  class Iter<T> {
    const source: Source<T>
    const cells: object
    ghost const again: seq<seq<T>>
    var next: Option<seq<T>>
    ghost var rest: seq<seq<T>>

    ghost predicate Valid()
      reads this, cells
    {
      && cells == source.Cells() && cells != this
      && again == source.Again()
      && source.Valid() && rest == source.Rest()
    }

    /** The items still to be handed out. */
    ghost function Remaining(): seq<seq<T>>
      reads this
    {
      if next.Some? then [next.value] + rest else rest
    }

    constructor (source: Source<T>, next: Option<seq<T>>)
      requires source.Valid()
      ensures Valid() && this.source == source && cells == source.Cells() && again == source.Again()
      ensures this.next == next && rest == source.Rest()
    {
      this.source, this.next := source, next;
      cells := source.Cells();
      again := source.Again();
      rest := source.Rest();
    }

    method Fetch() returns (r: Option<seq<T>>)
      requires Valid()
      modifies this`rest, cells
      ensures Valid()
      ensures old(rest) != [] ==> r == Some(old(rest)[0]) && rest == old(rest)[1..]
      ensures old(rest) == [] ==> r == None && rest == again
    {
      r := source.Next();
      rest := source.Rest();
    }

    /** get: hand out the next item. At the end, what is to come after it comes next. */
    method Get() returns (r: Option<seq<T>>)
      requires Valid()
      modifies this, cells
      ensures Valid()
      ensures old(Remaining()) != [] ==> r == Some(old(Remaining())[0]) && Remaining() == old(Remaining())[1..]
      ensures old(Remaining()) == [] ==> r == None && Remaining() == again
    {
      if next.Some? {
        r := next;
        next := None;
      } else {
        r := Fetch();
      }
    }

    /** peek: look at the next item without losing it. At the end, it moves on like get. */
    method Peek() returns (r: Option<seq<T>>)
      requires Valid()
      modifies this, cells
      ensures Valid()
      ensures old(Remaining()) != [] ==> r == Some(old(Remaining())[0]) && Remaining() == old(Remaining())
      ensures old(Remaining()) == [] ==> r == None && Remaining() == again
    {
      if next.Some? { return next; }
      r := Fetch();
      if r.Some? { next := r; }
    }

    /** clone: an independent iterator with the same items to come. */
    method Clone() returns (it: Iter<T>)
      requires Valid()
      ensures it.Valid() && fresh(it) && fresh(it.cells)
      ensures it.Remaining() == Remaining() && it.again == again
    {
      var copy := source.Copy();
      it := new Iter<T>(copy, next);
    }
  }

  // ---- Creation -------------------------------------------------------------

  /** What permi and its like return: a list for k of zero or too large, else an iterator. */
  datatype Made<T> = Listed(items: seq<seq<T>>) | Lazily(it: Iter<T>)

  /** The given items are to come from the iterator. */
  ghost predicate On<T>(it: Iter<T>, items: seq<seq<T>>, again: seq<seq<T>>)
    reads it, it.cells
  {
    it.Valid() && it.Remaining() == items && it.again == again
  }

  /** permi: an error for negative k, and for an empty sequence if k is left out, where the
      counter has no last digit to set. */
  method Permi<T>(items: seq<T>, kArg: Option<int>) returns (r: Result<Made<T>>)
    ensures r.Error? <==> (kArg.Some? && kArg.value < 0) || (kArg.None? && items == [])
    ensures var k := if kArg.Some? then kArg.value else |items|;
            r.Ok? ==>
              if 0 < k <= |items| then
                r.value.Lazily? && fresh(r.value.it) && fresh(r.value.it.cells)
                && On(r.value.it, Perm.Arranged(items, k), Perm.AfterEnd(items, k))
              else r.value == Listed(if k == 0 then [[]] else [])
  {
    if kArg.Some? && kArg.value < 0 { return Error; }
    if kArg == Some(0) { return Ok(Listed([[]])); }
    var k := if kArg.Some? then kArg.value else |items|;
    if k > |items| { return Ok(Listed([])); }
    if k == 0 { return Error; }
    var state := new Perm.State<T>(items, k);
    Perm.FallingPositive(|items|, k);
    var it := new Iter<T>(PermSource(state), None);
    r := Ok(Lazily(it));
  }

  method Rpermi<T>(items: seq<T>, k: int) returns (r: Result<Made<T>>)
    ensures r.Error? <==> k < 0
    ensures k == 0 ==> r == Ok(Listed(Rperm.Repeated(items, 0)))
    ensures k > 0 ==> r.value.Lazily? && fresh(r.value.it) && fresh(r.value.it.cells)
                      && On(r.value.it, Rperm.Repeated(items, k), [])
  {
    if k < 0 { return Error; }
    if k == 0 {
      assert Rperm.TupleAt(items, 0, 0) == [] && Rperm.Repeated(items, 0) == [[]];
      return Ok(Listed([[]]));
    }
    var state := new Rperm.State<T>(items, k);
    var more := state.WhileFun();
    var it := new Iter<T>(RpermSource(state), None);
    r := Ok(Lazily(it));
  }

  method Combi<T>(items: seq<T>, k: int) returns (r: Result<Made<T>>)
    ensures r.Error? <==> k < 0
    ensures k == 0 || k > |items| ==> r == Ok(Listed(Comb.Subsets(items, k)))
    ensures 0 < k <= |items| ==> r.value.Lazily? && fresh(r.value.it) && fresh(r.value.it.cells)
                                 && On(r.value.it, Comb.Subsets(items, k), [])
  {
    if k < 0 { return Error; }
    if k == 0 {
      assert Comb.SubsetAt(items, 0, 0) == [] && Comb.Subsets(items, 0) == [[]];
      return Ok(Listed([[]]));
    }
    if k > |items| {
      Binomial.ChooseTooMany(|items|, k);
      return Ok(Listed([]));
    }
    var state := new Comb.State<T>(items, k);
    var it := new Iter<T>(CombSource(state), None);
    r := Ok(Lazily(it));
  }

  /** rcombi borrows combi's length test, so unlike rcomb it has nothing to offer
      once k exceeds the length. */
  method Rcombi<T>(items: seq<T>, k: int) returns (r: Result<Made<T>>)
    ensures r.Error? <==> k < 0
    ensures k == 0 ==> r == Ok(Listed(Rcomb.Selections(items, 0)))
    ensures k > |items| ==> r == Ok(Listed([])) && (Rcomb.Selections(items, k) == [] <==> items == [])
    ensures 0 < k <= |items| ==> r.value.Lazily? && fresh(r.value.it) && fresh(r.value.it.cells)
                                 && On(r.value.it, Rcomb.Selections(items, k), [])
  {
    if k < 0 { return Error; }
    if k == 0 {
      assert Rcomb.MultisetAt(items, 0, 0) == [] && Rcomb.Selections(items, 0) == [[]];
      return Ok(Listed([[]]));
    }
    if k > |items| {
      if items != [] {
        Binomial.MultichooseIsChoose(|items|, k);
        Binomial.ChoosePositive(|items| + k - 1, k);
      }
      return Ok(Listed([]));
    }
    var state := new Rcomb.State<T>(items, k);
    var it := new Iter<T>(RcombSource(state), None);
    r := Ok(Lazily(it));
  }

  // ---- Any number of clones ---------------------------------------------------

  /** A call on one of several iterators; a clone joins them as the last. */
  datatype Op = Get(i: nat) | Peek(i: nat) | Clone(i: nat)

  predicate Callable(ops: seq<Op>, n: nat) {
    ops == [] || (ops[0].i < n && Callable(ops[1..], if ops[0].Clone? then n + 1 else n))
  }

  /** What a get or a peek answers when rem is to come. */
  function Head<X>(rem: seq<X>): Option<X> {
    if rem == [] then None else Some(rem[0])
  }

  /** What is to come afterwards. */
  function Moved<X>(rem: seq<X>, again: seq<X>, get: bool): seq<X> {
    if rem == [] then again else if get then rem[1..] else rem
  }

  function Stepped<X>(v: seq<seq<X>>, again: seq<X>, op: Op): seq<seq<X>>
    requires op.i < |v|
  {
    if op.Clone? then v + [v[op.i]] else v[op.i := Moved(v[op.i], again, op.Get?)]
  }

  function Answer<X>(v: seq<seq<X>>, op: Op): Option<X>
    requires op.i < |v|
  {
    if op.Clone? then None else Head(v[op.i])
  }

  /** What is to come from each iterator after the calls. */
  function After<X>(v: seq<seq<X>>, again: seq<X>, ops: seq<Op>): (r: seq<seq<X>>)
    requires Callable(ops, |v|)
    ensures |r| >= |v|
    decreases |ops|
  {
    if ops == [] then v else After(Stepped(v, again, ops[0]), again, ops[1..])
  }

  function Answers<X>(v: seq<seq<X>>, again: seq<X>, ops: seq<Op>): (r: seq<Option<X>>)
    requires Callable(ops, |v|)
    ensures |r| == |ops|
    decreases |ops|
  {
    if ops == [] then [] else [Answer(v, ops[0])] + Answers(Stepped(v, again, ops[0]), again, ops[1..])
  }

  lemma {:induction false} AfterStep<X>(v: seq<seq<X>>, again: seq<X>, ops: seq<Op>)
    requires Callable(ops, |v|) && ops != []
    ensures var v1 := Stepped(v, again, ops[0]);
            && |v1| == (if ops[0].Clone? then |v| + 1 else |v|) && Callable(ops[1..], |v1|)
            && After(v, again, ops) == After(v1, again, ops[1..])
            && Answers(v, again, ops) == [Answer(v, ops[0])] + Answers(v1, again, ops[1..])
  {
  }

  /** The iterators and their cells. */
  ghost function Footprint<T>(pool: seq<Iter<T>>): set<object> {
    (set i | 0 <= i < |pool| :: pool[i]) + (set i | 0 <= i < |pool| :: pool[i].cells)
  }

  ghost predicate Separate<T>(pool: seq<Iter<T>>) {
    forall i, j | 0 <= i < j < |pool| :: {pool[i], pool[i].cells} !! {pool[j], pool[j].cells}
  }

  /** Iterators that share nothing, with v[i] to come from number i. */
  ghost predicate Pool<T>(pool: seq<Iter<T>>, v: seq<seq<seq<T>>>, again: seq<seq<T>>)
    reads Footprint(pool)
  {
    && |v| == |pool| && Separate(pool)
    && forall i | 0 <= i < |pool| :: On(pool[i], v[i], again)
  }

  method Ask<T>(it: Iter<T>, get: bool, ghost rem: seq<seq<T>>, ghost again: seq<seq<T>>)
    returns (answer: Option<seq<T>>)
    requires On(it, rem, again)
    modifies it, it.cells
    ensures On(it, Moved(rem, again, get), again) && answer == Head(rem)
  {
    if get { answer := it.Get(); } else { answer := it.Peek(); }
  }

  method AskOne<T>(pool: seq<Iter<T>>, j: nat, get: bool, ghost v: seq<seq<seq<T>>>, ghost again: seq<seq<T>>)
    returns (answer: Option<seq<T>>)
    requires Pool(pool, v, again) && j < |pool|
    modifies Footprint(pool)
    ensures Pool(pool, v[j := Moved(v[j], again, get)], again) && answer == Head(v[j])
  {
    assert pool[j] in Footprint(pool) && pool[j].cells in Footprint(pool);
    OthersApart(pool, j);
    var it := pool[j];
    assert On(it, v[j], again) && forall i | 0 <= i < |pool| :: On(pool[i], v[i], again);
    answer := Ask(it, get, v[j], again);
    OneMoved(pool, v, j, Moved(v[j], again, get), again);
  }

  lemma {:induction false} OneMoved<T>(pool: seq<Iter<T>>, v: seq<seq<seq<T>>>, j: nat, rem: seq<seq<T>>,
                                       again: seq<seq<T>>)
    requires |v| == |pool| && Separate(pool) && j < |pool| && On(pool[j], rem, again)
    requires forall i | 0 <= i < |pool| && i != j :: On(pool[i], v[i], again)
    ensures Pool(pool, v[j := rem], again)
  {
  }

  lemma {:induction false} OthersApart<T>(pool: seq<Iter<T>>, j: nat)
    requires Separate(pool) && j < |pool|
    ensures forall i | 0 <= i < |pool| && i != j :: {pool[i], pool[i].cells} !! {pool[j], pool[j].cells}
  {
  }

  method CloneOne<T>(pool: seq<Iter<T>>, j: nat, ghost v: seq<seq<seq<T>>>, ghost again: seq<seq<T>>)
    returns (twin: Iter<T>)
    requires Pool(pool, v, again) && j < |pool|
    ensures Pool(pool + [twin], v + [v[j]], again) && fresh(twin) && fresh(twin.cells)
  {
    assert On(pool[j], v[j], again);
    twin := pool[j].Clone();
    Joined(pool, v, again, twin, v[j]);
  }

  /** One more iterator, apart from the others. */
  lemma {:induction false} Joined<T>(pool: seq<Iter<T>>, v: seq<seq<seq<T>>>, again: seq<seq<T>>,
                                     twin: Iter<T>, rem: seq<seq<T>>)
    requires Pool(pool, v, again) && On(twin, rem, again)
    requires twin !in Footprint(pool) && twin.cells !in Footprint(pool)
    ensures Pool(pool + [twin], v + [rem], again)
  {
    forall i | 0 <= i < |pool|
      ensures On(pool[i], v[i], again) && {pool[i], pool[i].cells} !! {twin, twin.cells}
    {
      assert pool[i] in Footprint(pool) && pool[i].cells in Footprint(pool);
    }
  }

  lemma {:induction false} FootprintJoined<T>(pool: seq<Iter<T>>, twin: Iter<T>)
    ensures Footprint(pool + [twin]) == Footprint(pool) + {twin, twin.cells}
  {
    var more := pool + [twin];
    assert more[|pool|] == twin && forall i | 0 <= i < |pool| :: more[i] == pool[i];
    forall o | o in Footprint(pool) + {twin, twin.cells} ensures o in Footprint(more) {
      assert more[|pool|] in Footprint(more) && more[|pool|].cells in Footprint(more);
      assert forall i | 0 <= i < |pool| :: more[i] in Footprint(more) && more[i].cells in Footprint(more);
    }
  }

  method Call<T>(pool: seq<Iter<T>>, op: Op, ghost v: seq<seq<seq<T>>>, ghost again: seq<seq<T>>)
    returns (pool': seq<Iter<T>>, answer: Option<seq<T>>)
    requires Pool(pool, v, again) && op.i < |pool|
    modifies Footprint(pool)
    ensures Pool(pool', Stepped(v, again, op), again) && fresh(Footprint(pool') - Footprint(pool))
    ensures |pool'| == if op.Clone? then |pool| + 1 else |pool|
    ensures answer == Answer(v, op)
  {
    pool', answer := pool, None;
    if op.Clone? {
      var twin := CloneOne(pool, op.i, v, again);
      pool' := pool + [twin];
      FootprintJoined(pool, twin);
    } else {
      answer := AskOne(pool, op.i, op.Get?, v, again);
    }
  }

  /** Get, peek and clone, on clones and clones of clones, in any order: the iterators
      behave as so many sequences of items, each with a life of its own. */
  method Calls<T>(pool: seq<Iter<T>>, ops: seq<Op>, ghost v: seq<seq<seq<T>>>, ghost again: seq<seq<T>>)
    returns (pool': seq<Iter<T>>, answers: seq<Option<seq<T>>>)
    requires Pool(pool, v, again) && Callable(ops, |pool|)
    modifies Footprint(pool)
    ensures Pool(pool', After(v, again, ops), again) && fresh(Footprint(pool') - Footprint(pool))
    ensures answers == Answers(v, again, ops)
    decreases |ops|
  {
    if ops == [] { return pool, []; }
    AfterStep(v, again, ops);
    var pool1, answer := Call(pool, ops[0], v, again);
    var pool2, more := Calls(pool1, ops[1..], Stepped(v, again, ops[0]), again);
    SetChain(Footprint(pool2), Footprint(pool1), Footprint(pool));
    return pool2, [answer] + more;
  }

  lemma {:induction false} SetChain<X>(a: set<X>, b: set<X>, c: set<X>)
    ensures a - c <= (a - b) + (b - c)
  {
  }

  /** The calls on iterator j, true for a get and false for a peek, and their answers. */
  function Mine(ops: seq<Op>, j: nat): seq<bool> {
    if ops == [] then [] else if IsMine(ops[0], j) then [ops[0].Get?] + Mine(ops[1..], j) else Mine(ops[1..], j)
  }

  predicate IsMine(op: Op, j: nat) {
    op.i == j && !op.Clone?
  }

  function Heard<X>(ops: seq<Op>, answers: seq<Option<X>>, j: nat): seq<Option<X>>
    requires |answers| == |ops|
  {
    if ops == [] then []
    else if IsMine(ops[0], j) then [answers[0]] + Heard(ops[1..], answers[1..], j)
    else Heard(ops[1..], answers[1..], j)
  }

  /** One iterator by itself. */
  function Alone<X>(rem: seq<X>, again: seq<X>, gets: seq<bool>): seq<X>
    decreases |gets|
  {
    if gets == [] then rem else Alone(Moved(rem, again, gets[0]), again, gets[1..])
  }

  function Answered<X>(rem: seq<X>, again: seq<X>, gets: seq<bool>): (r: seq<Option<X>>)
    ensures |r| == |gets|
    decreases |gets|
  {
    if gets == [] then [] else [Head(rem)] + Answered(Moved(rem, again, gets[0]), again, gets[1..])
  }

  /** Each iterator hears and keeps what it would if it were alone, whatever is done to the
      others; so does a clone, from the moment it is made. */
  lemma {:induction false} Independent<X>(v: seq<seq<X>>, again: seq<X>, ops: seq<Op>, j: nat)
    requires Callable(ops, |v|) && j < |v|
    ensures After(v, again, ops)[j] == Alone(v[j], again, Mine(ops, j))
    ensures Heard(ops, Answers(v, again, ops), j) == Answered(v[j], again, Mine(ops, j))
    decreases |ops|
  {
    if ops != [] {
      var op, v' := ops[0], Stepped(v, again, ops[0]);
      Independent(v', again, ops[1..], j);
      assert Answers(v, again, ops)[1..] == Answers(v', again, ops[1..]);
      if IsMine(op, j) { assert Mine(ops, j)[1..] == Mine(ops[1..], j); }
    }
  }

  function GetCount(gets: seq<bool>): nat {
    if gets == [] then 0 else (if gets[0] then 1 else 0) + GetCount(gets[1..])
  }

  /** The answer to call number m is the item whose number is that of the gets before it,
      and nothing once they have used up the items, unless there is more after the end. */
  lemma {:induction false} AnsweredInOrder<X>(rem: seq<X>, again: seq<X>, gets: seq<bool>, m: nat)
    requires m < |gets|
    ensures var i := GetCount(gets[..m]);
            && (i < |rem| ==> Answered(rem, again, gets)[m] == Some(rem[i]))
            && (i >= |rem| && again == [] ==> Answered(rem, again, gets)[m] == None)
    decreases |gets|
  {
    if m > 0 {
      AnsweredInOrder(Moved(rem, again, gets[0]), again, gets[1..], m - 1);
      assert gets[..m][1..] == gets[1..][..m - 1];
    } else {
      assert gets[..0] == [];
    }
  }

  /** One call at the end, be it a get or a peek, and the iterator goes over what comes
      after the end. */
  lemma {:induction false} StartsOver<X>(again: seq<X>, get: bool, gets: seq<bool>)
    ensures Answered([], again, [get] + gets) == [None] + Answered(again, again, gets)
  {
    assert ([get] + gets)[1..] == gets;
  }
}
