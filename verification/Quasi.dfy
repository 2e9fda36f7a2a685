/** expand_qquote: the quasiquote compiler, for templates without nested quasiquotes. */
module Quasi {
  import opened Wrappers
  import opened Forms
  import opened Optimize

  /** The symbols of one quasiquote notation: quasiquote, unquote and splice. */
  datatype Marks = Marks(qq: Val, unq: Val, spl: Val)

  const EXPR := Sym("sys:expr")
  const HASH_LIT := Sym("sys:hash-lit")
  const VECTOR_LIT := Sym("sys:vector-lit")
  const STRUCT_LIT := Sym("sys:struct-lit")
  const TREE_LIT := Sym("sys:tree-lit")

  predicate IsLiteralHead(v: Val) {
    v == HASH_LIT || v == VECTOR_LIT || v == STRUCT_LIT || v == TREE_LIT
  }

  predicate IsMetaUnquote(args: Val, unq: Val) {
    args.Cons? && args.cdr.Nil? && args.car.Cons? && args.car.car == unq
    && args.car.cdr.Cons? && args.car.cdr.cdr.Nil?
  }

  predicate IsMarked(h: Val, m: Marks) {
    h.Cons? && (h.car == m.spl || h.car == m.unq)
  }

  // ---- Objects in a template --------------------------------------------------------

  /** Ranges, tree nodes, and hash, vector, struct and tree literals, which are read as
      lists that start with a symbol of their own. */
  predicate IsObject(t: Val, m: Marks) {
    t.Rng? || t.Node? || (t.Cons? && t.car != m.spl && t.car != m.unq && IsLiteralHead(t.car))
  }

  /** The parts that become arguments of the object's maker: the second item of a literal
      and, except for a vector, the list after that. */
  function PartsOf(t: Val): (ps: seq<Val>)
    ensures Below(ps, t)
  {
    match t
    case Rng(a, b) => [a, b]
    case Node(k, l, r) => [k, l, r]
    case Cons(h, r) =>
      var first, rest := if r.Cons? then r.car else r, if r.Cons? then r.cdr else r;
      if h == VECTOR_LIT then [first] else [first, rest]
    case _ => []
  }

  ghost predicate Below(ps: seq<Val>, top: Val) {
    forall i | 0 <= i < |ps| :: ps[i] < top
  }

  function MakerOf(t: Val): Val {
    match t
    case Rng(_, _) => RCONS
    case Node(_, _, _) => TNODE
    case Cons(h, _) =>
      if h == VECTOR_LIT then VEC_LIST
      else if h == HASH_LIT then HASH_CONSTRUCT
      else if h == STRUCT_LIT then MAKE_STRUCT_LIT
      else TREE_CONSTRUCT
    case _ => LIST
  }

  lemma {:induction false} MakerArity(t: Val, m: Marks)
    requires IsObject(t, m)
    ensures IsMaker(MakerOf(t)) && |PartsOf(t)| == Arity(MakerOf(t))
  {
  }

  /** No quasiquote or meta form inside the template, and literals are lists. */
  predicate Flat(t: Val, m: Marks) {
    if IsObject(t, m) then
      && (t.Cons? ==> t.car != m.qq && (t.cdr.Nil? || t.cdr.Cons?))
      && forall i | 0 <= i < |PartsOf(t)| :: Flat(PartsOf(t)[i], m)
    else
      match t
      case Cons(h, r) =>
        h == m.spl || h == m.unq ||
        (h != m.qq && !(h == EXPR && IsMetaUnquote(r, m.unq)) && (IsMarked(h, m) || Flat(h, m)) && Flat(r, m))
      case _ => true
  }

  predicate AllFlat(ps: seq<Val>, m: Marks) {
    forall i | 0 <= i < |ps| :: Flat(ps[i], m)
  }

  // ---- The compiler ---------------------------------------------------------------

  function List1(a: Val): Val {
    Cons(LIST, Cons(a, Nil))
  }

  /** expand_qquote_rec; None where it raises the misplaced splice error. */
  function ExpandRec(t: Val, m: Marks): Option<Val>
    requires Flat(t, m)
    decreases t, 1, 0
  {
    if IsObject(t, m) then
      var es := ExpandAll(PartsOf(t), m, t);
      if es.None? then None else Some(Cons(MakerOf(t), ListStar(es.value, Nil)))
    else
      match t
      case Nil => Some(Nil)
      case Cons(h, r) =>
        if h == m.spl then None
        else if h == m.unq then Some(Second(t))
        else
          var rx := ExpandRec(r, m);
          var fx := ExpandItem(h, m);
          if rx.None? || fx.None? then None else Some(Assemble(fx.value, r, rx.value, m))
      case _ => Some(Cons(QUOTE, Cons(t, Nil)))
  }

  /** The expansions of the parts of top. */
  function ExpandAll(ps: seq<Val>, m: Marks, ghost top: Val): (r: Option<seq<Val>>)
    requires Below(ps, top) && AllFlat(ps, m)
    ensures r.Some? ==> |r.value| == |ps|
    decreases top, 0, |ps|
  {
    if ps == [] then Some([]) else
      var e, es := Expand(ps[0], m), ExpandAll(ps[1..], m, top);
      if e.None? || es.None? then None else Some([e.value] + es.value)
  }

  /** The argument of append that yields one item of the template. */
  function ExpandItem(h: Val, m: Marks): Option<Val>
    requires IsMarked(h, m) || Flat(h, m)
    decreases h, 3, 0
  {
    if h.Cons? && h.car == m.spl then Some(Second(h))
    else if h.Cons? && h.car == m.unq then Some(List1(Second(h)))
    else
      var e := Expand(h, m);
      if e.None? then None else Some(List1(e.value))
  }

  /** Put the expansion of the first item in front of the expansion of the rest. */
  function Assemble(fx: Val, r: Val, rx: Val, m: Marks): Val {
    if rx.Nil? then Cons(APPEND, Cons(fx, Nil))
    else if !rx.Cons? then Cons(APPEND, Cons(fx, Cons(rx, Nil)))
    else if r.Cons? && r.car == m.unq then Cons(APPEND, Cons(fx, Cons(rx, Nil)))
    else if rx.car == APPEND then Cons(APPEND, Cons(fx, rx.cdr))
    else if rx.car == QUOTE then Cons(APPEND, Cons(fx, Cons(rx, Nil)))
    else Cons(APPEND, Cons(fx, rx))
  }

  function Expand(t: Val, m: Marks): Option<Val>
    requires Flat(t, m)
    decreases t, 2, 0
  {
    var e := ExpandRec(t, m);
    if e.None? then None else Some(OptimizeQquote(e.value))
  }

  // ---- The reference: direct instantiation -------------------------------------------

  /** Build the instance of the template, evaluating unquoted forms on the way. */
  function Instantiate(o: Oracle, t: Val, m: Marks, trace: seq<Val>): Res
    decreases t, 1, 0
  {
    if IsObject(t, m) then
      var a := InstantiateAll(o, PartsOf(t), m, trace, t);
      if a.BadArgs? then Err else Done(Make(MakerOf(t), a.vs), a.trace)
    else
      match t
      case Cons(h, r) =>
        if h == m.spl then Err
        else if h == m.unq then Eval(o, Second(t), trace)
        else
          var x := if IsMarked(h, m) then Eval(o, Second(h), trace) else Instantiate(o, h, m, trace);
          if x.Err? then Err else
            var y := Instantiate(o, r, m, x.trace);
            if y.Err? then Err
            else if h.Cons? && h.car == m.spl then
              if r.Nil? then Done(x.v, y.trace)
              else if Proper(x.v) then Done(Join(x.v, y.v), y.trace)
              else Err
            else Done(Cons(x.v, y.v), y.trace)
      case _ => Done(t, trace)
  }

  function InstantiateAll(o: Oracle, ps: seq<Val>, m: Marks, trace: seq<Val>, ghost top: Val): (r: ArgsRes)
    requires Below(ps, top)
    ensures r.Args? ==> |r.vs| == |ps|
    decreases top, 0, |ps|
  {
    if ps == [] then Args([], trace) else
      var x := Instantiate(o, ps[0], m, trace);
      if x.Err? then BadArgs else
        var s := InstantiateAll(o, ps[1..], m, x.trace, top);
        if s.BadArgs? then BadArgs else Args([x.v] + s.vs, s.trace)
  }

  /** Places where a list of the template ends in an object instead of nil. */
  function DottedObjects(t: Val, m: Marks): nat
    decreases t, 1, 0
  {
    if IsObject(t, m) then DottedInAll(PartsOf(t), m, t)
    else
      match t
      case Cons(h, r) =>
        if h == m.spl || h == m.unq then 0
        else
          (if IsMarked(h, m) then 0 else DottedObjects(h, m)) + (if IsObject(r, m) then 1 else 0) + DottedObjects(r, m)
      case _ => 0
  }

  function DottedInAll(ps: seq<Val>, m: Marks, ghost top: Val): nat
    requires Below(ps, top)
    decreases top, 0, |ps|
  {
    if ps == [] then 0 else DottedObjects(ps[0], m) + DottedInAll(ps[1..], m, top)
  }

  /** A splice at the top or in the dotted position of a list. */
  predicate MisplacedSplice(t: Val, m: Marks) {
    if IsObject(t, m) then exists i | 0 <= i < |PartsOf(t)| :: MisplacedSplice(PartsOf(t)[i], m)
    else
      match t
      case Cons(h, r) =>
        h == m.spl || (h != m.unq && ((!IsMarked(h, m) && MisplacedSplice(h, m)) || MisplacedSplice(r, m)))
      case _ => false
  }

  /** The compiler raises exactly on misplaced splices, which have no instance either. */
  lemma {:induction false} ExpandFails(o: Oracle, t: Val, m: Marks, trace: seq<Val>)
    requires Flat(t, m)
    ensures ExpandRec(t, m).None? <==> MisplacedSplice(t, m)
    ensures Expand(t, m).None? <==> MisplacedSplice(t, m)
    ensures MisplacedSplice(t, m) ==> Instantiate(o, t, m, trace).Err?
    decreases t, 1, 0
  {
    if IsObject(t, m) {
      AllFail(o, PartsOf(t), m, trace, t);
    } else if t.Cons? {
      var h, r := t.car, t.cdr;
      if h != m.spl && h != m.unq {
        var x := if IsMarked(h, m) then Eval(o, Second(h), trace) else Instantiate(o, h, m, trace);
        if !IsMarked(h, m) { ExpandFails(o, h, m, trace); }
        assert ExpandItem(h, m).None? <==> !IsMarked(h, m) && Expand(h, m).None?;
        ExpandFails(o, r, m, if x.Done? then x.trace else trace);
      }
    }
  }

  lemma {:induction false} AllFail(o: Oracle, ps: seq<Val>, m: Marks, trace: seq<Val>, top: Val)
    requires Below(ps, top) && AllFlat(ps, m)
    ensures ExpandAll(ps, m, top).None? <==> exists i | 0 <= i < |ps| :: MisplacedSplice(ps[i], m)
    ensures ExpandAll(ps, m, top).None? ==> InstantiateAll(o, ps, m, trace, top).BadArgs?
    decreases top, 0, |ps|
  {
    if ps != [] {
      var x := Instantiate(o, ps[0], m, trace);
      ExpandFails(o, ps[0], m, trace);
      AllFail(o, ps[1..], m, if x.Done? then x.trace else trace, top);
      var rest := ps[1..];
      if j :| 0 <= j < |rest| && MisplacedSplice(rest[j], m) { assert MisplacedSplice(ps[j + 1], m); }
      if j :| 0 <= j < |ps| && MisplacedSplice(ps[j], m) { assert j > 0 ==> MisplacedSplice(rest[j - 1], m); }
    }
  }

  // ---- Meaning ---------------------------------------------------------------------------

  /** Evaluating (append f . args), from the parts. */
  lemma {:induction false} EvalAppendCons(o: Oracle, f: Val, args: Val, trace: seq<Val>)
    requires Eval(o, f, trace).Done? && EvalArgs(o, args, Eval(o, f, trace).trace).Args?
    ensures var x := Eval(o, f, trace); var s := EvalArgs(o, args, x.trace);
            Eval(o, Cons(APPEND, Cons(f, args)), trace) == Finish(APPEND, Args([x.v] + s.vs, s.trace))
            && (s.vs == [] ==> Finish(APPEND, Args([x.v] + s.vs, s.trace)) == Done(x.v, s.trace))
            && (s.vs != [] && Proper(x.v) && AppendValues(s.vs).Done? ==>
                  Finish(APPEND, Args([x.v] + s.vs, s.trace)) == Done(Join(x.v, AppendValues(s.vs).v), s.trace))
  {
    var x := Eval(o, f, trace);
    var s := EvalArgs(o, args, x.trace);
    assert ([x.v] + s.vs)[1..] == s.vs;
  }

  lemma {:induction false} EvalList1(o: Oracle, e: Val, trace: seq<Val>)
    requires Eval(o, e, trace).Done?
    ensures Eval(o, List1(e), trace) == Done(Cons(Eval(o, e, trace).v, Nil), Eval(o, e, trace).trace)
  {
    var x := Eval(o, e, trace);
    assert EvalArgs(o, Cons(e, Nil), trace) == Args([x.v], x.trace) by { assert [x.v] + [] == [x.v]; }
    assert ListStar([x.v], Nil) == Cons(x.v, Nil);
  }

  lemma {:induction false} EvalOneArg(o: Oracle, e: Val, trace: seq<Val>)
    requires Eval(o, e, trace).Done?
    ensures EvalArgs(o, Cons(e, Nil), trace) == Args([Eval(o, e, trace).v], Eval(o, e, trace).trace)
  {
    assert [Eval(o, e, trace).v] + [] == [Eval(o, e, trace).v];
  }

  /** What the recursive expansion of the rest of a list looks like. */
  lemma {:induction false} RestShape(r: Val, m: Marks)
    requires Flat(r, m) && ExpandRec(r, m).Some? && ExpandRec(r, m).value.Cons?
    ensures var rx := ExpandRec(r, m).value;
            if IsObject(r, m) then IsMaker(rx.car)
            else (r.Cons? && r.car == m.unq) || rx.car == QUOTE || (rx.car == APPEND && rx.cdr.Cons?)
  {
    if IsObject(r, m) { MakerArity(r, m); }
  }

  /** Prepending an item to the rest of the list, in code and in values. */
  lemma {:induction false} AssembleMeans(o: Oracle, fx: Val, r: Val, rx: Val, m: Marks, trace: seq<Val>)
    requires Flat(r, m) && !IsObject(r, m) && ExpandRec(r, m) == Some(rx)
    requires Eval(o, fx, trace).Done? && Eval(o, rx, Eval(o, fx, trace).trace).Done?
    requires r.Nil? || Proper(Eval(o, fx, trace).v)
    ensures var x := Eval(o, fx, trace); var y := Eval(o, rx, x.trace);
            Eval(o, Assemble(fx, r, rx, m), trace) ==
            if r.Nil? then Done(x.v, y.trace) else Done(Join(x.v, y.v), y.trace)
  {
    var x := Eval(o, fx, trace);
    var y := Eval(o, rx, x.trace);
    if rx.Nil? {
      EvalAppendCons(o, fx, Nil, trace);
      if !r.Nil? { JoinNil(x.v); }
    } else if rx.Cons? && !(r.Cons? && r.car == m.unq) && rx.car == APPEND {
      RestShape(r, m);
      EvalAppendCons(o, fx, rx.cdr, trace);
      assert EvalArgs(o, rx.cdr, x.trace).vs != [];
    } else {
      if rx.Cons? { RestShape(r, m); }
      EvalOneArg(o, rx, x.trace);
      EvalAppendCons(o, fx, Cons(rx, Nil), trace);
    }
  }

  /** The value of the item's append argument: the item in a list, or the splice. */
  lemma {:induction false} ItemMeans(o: Oracle, h: Val, m: Marks, trace: seq<Val>)
    requires (IsMarked(h, m) || Flat(h, m)) && ExpandItem(h, m).Some?
    requires !IsMarked(h, m) ==> Expand(h, m).Some? && Eval(o, Expand(h, m).value, trace) == Instantiate(o, h, m, trace)
    requires (if IsMarked(h, m) then Eval(o, Second(h), trace) else Instantiate(o, h, m, trace)).Done?
    ensures var x := if IsMarked(h, m) then Eval(o, Second(h), trace) else Instantiate(o, h, m, trace);
            Eval(o, ExpandItem(h, m).value, trace) ==
            if h.Cons? && h.car == m.spl then x else Done(Cons(x.v, Nil), x.trace)
  {
    if !IsMarked(h, m) {
      EvalList1(o, Expand(h, m).value, trace);
    } else if h.car != m.spl {
      EvalList1(o, Second(h), trace);
    }
  }

  lemma {:induction false} EvalMaker(o: Oracle, op: Val, args: Val, trace: seq<Val>)
    requires IsMaker(op) && EvalArgs(o, args, trace).Args? && |EvalArgs(o, args, trace).vs| == Arity(op)
    ensures var a := EvalArgs(o, args, trace); Eval(o, Cons(op, args), trace) == Done(Make(op, a.vs), a.trace)
  {
  }

  lemma {:induction false} ExpandMeans(o: Oracle, t: Val, m: Marks, trace: seq<Val>)
    requires Flat(t, m) && Expand(t, m).Some? && Instantiate(o, t, m, trace).Done? && DottedObjects(t, m) == 0
    ensures Eval(o, ExpandRec(t, m).value, trace) == Instantiate(o, t, m, trace)
    ensures Eval(o, Expand(t, m).value, trace) == Instantiate(o, t, m, trace)
    decreases t, 2, 0
  {
    if IsObject(t, m) {
      AllMean(o, PartsOf(t), m, trace, t);
      MakerArity(t, m);
      EvalMaker(o, MakerOf(t), ListStar(ExpandAll(PartsOf(t), m, t).value, Nil), trace);
    } else if t.Cons? && t.car != m.unq {
      ConsMeans(o, t, m, trace);
    }
    OptimizeKeeps(o, ExpandRec(t, m).value, trace);
  }

  lemma {:induction false} AllMean(o: Oracle, ps: seq<Val>, m: Marks, trace: seq<Val>, top: Val)
    requires Below(ps, top) && AllFlat(ps, m)
    requires ExpandAll(ps, m, top).Some? && InstantiateAll(o, ps, m, trace, top).Args? && DottedInAll(ps, m, top) == 0
    ensures EvalArgs(o, ListStar(ExpandAll(ps, m, top).value, Nil), trace) == InstantiateAll(o, ps, m, trace, top)
    decreases top, 0, |ps|
  {
    if ps != [] {
      ExpandMeans(o, ps[0], m, trace);
      AllMean(o, ps[1..], m, Instantiate(o, ps[0], m, trace).trace, top);
      assert ExpandAll(ps, m, top).value[1..] == ExpandAll(ps[1..], m, top).value;
    }
  }

  lemma {:induction false} ConsMeans(o: Oracle, t: Val, m: Marks, trace: seq<Val>)
    requires t.Cons? && t.car != m.unq && !IsObject(t, m)
    requires Flat(t, m) && ExpandRec(t, m).Some?
    requires Instantiate(o, t, m, trace).Done? && DottedObjects(t, m) == 0
    ensures Eval(o, ExpandRec(t, m).value, trace) == Instantiate(o, t, m, trace)
    decreases t, 1, 0
  {
    var h, r := t.car, t.cdr;
    var x := if IsMarked(h, m) then Eval(o, Second(h), trace) else Instantiate(o, h, m, trace);
    if !IsMarked(h, m) { ExpandMeans(o, h, m, trace); }
    ItemMeans(o, h, m, trace);
    ExpandMeans(o, r, m, x.trace);
    AssembleMeans(o, ExpandItem(h, m).value, r, ExpandRec(r, m).value, m, trace);
  }

  // ---- What the objects are ---------------------------------------------------------------

  function Call2(name: string, x: Val, y: Val): Val {
    Cons(Sym(name), Cons(x, Cons(y, Nil)))
  }

  /** A literal, with the list of its second item and what follows, or on its own. */
  function Literal(name: string, args: Option<(Val, Val)>): Val {
    Cons(Sym(name), if args.Some? then Cons(args.value.0, args.value.1) else Nil)
  }

  predicate Unmarked(name: string, m: Marks) {
    Sym(name) != m.qq && Sym(name) != m.unq && Sym(name) != m.spl
  }

  /** A range is compiled to rcons of its ends, and a tree node to tnode of its key, left and
      right, in that order. */
  lemma {:induction false} ExpandNodes(a: Val, b: Val, c: Val, m: Marks, x: Val, y: Val, z: Val)
    requires Flat(a, m) && Flat(b, m) && Flat(c, m)
    requires Expand(a, m) == Some(x) && Expand(b, m) == Some(y) && Expand(c, m) == Some(z)
    ensures Flat(Rng(a, b), m) && ExpandRec(Rng(a, b), m) == Some(Call2("rcons", x, y))
    ensures Flat(Node(a, b, c), m)
    ensures ExpandRec(Node(a, b, c), m) == Some(Cons(Sym("tnode"), Cons(x, Cons(y, Cons(z, Nil)))))
  {
    assert PartsOf(Rng(a, b)) == [a, b] && PartsOf(Node(a, b, c)) == [a, b, c];
    ExpandTwo([a, b], m, Rng(a, b), x, y);
    assert [a, b, c][1..] == [b, c];
    ExpandTwo([b, c], m, Node(a, b, c), y, z);
    assert [x] + [y, z] == [x, y, z] && [x, y, z][1..] == [y, z];
    TwoListed(y, z);
  }

  lemma {:induction false} ExpandTwo(ps: seq<Val>, m: Marks, top: Val, x: Val, y: Val)
    requires |ps| == 2 && Below(ps, top) && AllFlat(ps, m)
    requires Expand(ps[0], m) == Some(x) && Expand(ps[1], m) == Some(y)
    ensures ExpandAll(ps, m, top) == Some([x, y])
    ensures ListStar([x, y], Nil) == Cons(x, Cons(y, Nil))
  {
    assert ps[1..] == [ps[1]] && ps[1..][1..] == [];
    assert ExpandAll(ps[1..], m, top) == Some([y] + []);
    assert [x] + ([y] + []) == [x, y];
    TwoListed(x, y);
  }

  lemma {:induction false} TwoListed(x: Val, y: Val)
    ensures ListStar([x, y], Nil) == Cons(x, Cons(y, Nil)) && ListStar([x], Nil) == Cons(x, Nil)
  {
    assert [x, y][1..] == [y] && [y][1..] == [] && [x][1..] == [];
    assert ListStar([y], Nil) == Cons(y, Nil);
  }

  /** A hash literal is compiled to hash-construct, a struct literal to sys:make-struct-lit and
      a tree literal to sys:tree-construct, of the second item and what follows; a vector
      literal to vec-list of the second item alone. */
  lemma {:induction false} ExpandLiterals(a: Val, r: Val, m: Marks, x: Val, y: Val)
    requires Flat(a, m) && Flat(r, m) && Expand(a, m) == Some(x) && Expand(r, m) == Some(y)
    requires Unmarked("sys:hash-lit", m) && Unmarked("sys:struct-lit", m)
    requires Unmarked("sys:tree-lit", m) && Unmarked("sys:vector-lit", m)
    ensures var t := Literal("sys:hash-lit", Some((a, r)));
            Flat(t, m) && ExpandRec(t, m) == Some(Call2("hash-construct", x, y))
    ensures var t := Literal("sys:struct-lit", Some((a, r)));
            Flat(t, m) && ExpandRec(t, m) == Some(Call2("sys:make-struct-lit", x, y))
    ensures var t := Literal("sys:tree-lit", Some((a, r)));
            Flat(t, m) && ExpandRec(t, m) == Some(Call2("sys:tree-construct", x, y))
    ensures var t := Literal("sys:vector-lit", Some((a, r)));
            Flat(t, m) && ExpandRec(t, m) == Some(Cons(Sym("vec-list"), Cons(x, Nil)))
  {
    ExpandPair(HASH_LIT, a, r, m, x, y);
    ExpandPair(STRUCT_LIT, a, r, m, x, y);
    ExpandPair(TREE_LIT, a, r, m, x, y);
    ExpandSingle(a, r, m, x);
  }

  lemma {:induction false} ExpandPair(h: Val, a: Val, r: Val, m: Marks, x: Val, y: Val)
    requires Flat(a, m) && Flat(r, m) && Expand(a, m) == Some(x) && Expand(r, m) == Some(y)
    requires IsLiteralHead(h) && h != VECTOR_LIT && h != m.qq && h != m.unq && h != m.spl
    ensures var t := Cons(h, Cons(a, r));
            Flat(t, m) && ExpandRec(t, m) == Some(Cons(MakerOf(t), Cons(x, Cons(y, Nil))))
  {
    var t := Cons(h, Cons(a, r));
    assert PartsOf(t) == [a, r];
    ExpandTwo([a, r], m, t, x, y);
  }

  lemma {:induction false} ExpandSingle(a: Val, r: Val, m: Marks, x: Val)
    requires Flat(a, m) && Expand(a, m) == Some(x)
    requires VECTOR_LIT != m.qq && VECTOR_LIT != m.unq && VECTOR_LIT != m.spl
    ensures var t := Cons(VECTOR_LIT, Cons(a, r));
            Flat(t, m) && ExpandRec(t, m) == Some(Cons(Sym("vec-list"), Cons(x, Nil)))
  {
    var t := Cons(VECTOR_LIT, Cons(a, r));
    assert PartsOf(t) == [a] && [a][1..] == [] && [x] + [] == [x];
    assert ExpandAll([a], m, t) == Some([x]);
    TwoListed(x, x);
  }

  /** Without anything after the symbol, a literal's arguments are nil. */
  lemma {:induction false} ExpandBare(m: Marks)
    requires Unmarked("sys:hash-lit", m) && Unmarked("sys:struct-lit", m)
    requires Unmarked("sys:tree-lit", m) && Unmarked("sys:vector-lit", m)
    ensures var t := Literal("sys:hash-lit", None);
            Flat(t, m) && ExpandRec(t, m) == Some(Call2("hash-construct", Nil, Nil))
    ensures var t := Literal("sys:struct-lit", None);
            Flat(t, m) && ExpandRec(t, m) == Some(Call2("sys:make-struct-lit", Nil, Nil))
    ensures var t := Literal("sys:tree-lit", None);
            Flat(t, m) && ExpandRec(t, m) == Some(Call2("sys:tree-construct", Nil, Nil))
    ensures var t := Literal("sys:vector-lit", None);
            Flat(t, m) && ExpandRec(t, m) == Some(Cons(Sym("vec-list"), Cons(Nil, Nil)))
  {
    ExpandNil(HASH_LIT, m);
    ExpandNil(STRUCT_LIT, m);
    ExpandNil(TREE_LIT, m);
    ExpandNil(VECTOR_LIT, m);
  }

  lemma {:induction false} ExpandNil(h: Val, m: Marks)
    requires IsLiteralHead(h) && h != m.qq && h != m.unq && h != m.spl
    ensures var t := Cons(h, Nil);
            Flat(t, m) && ExpandRec(t, m) ==
            Some(Cons(MakerOf(t), Cons(Nil, if h == VECTOR_LIT then Nil else Cons(Nil, Nil))))
  {
    var t := Cons(h, Nil);
    assert Flat(Nil, m) && ExpandRec(Nil, m) == Some(Nil);
    assert OptimizeForm(Nil) == Nil && OptimizeQquote(Nil) == Nil;
    if h == VECTOR_LIT {
      assert PartsOf(t) == [Nil] && [Nil][1..] == [] && [Nil] + [] == [Nil];
      assert ExpandAll([Nil], m, t) == Some([Nil]);
    } else {
      assert PartsOf(t) == [Nil, Nil];
      ExpandTwo([Nil, Nil], m, t, Nil, Nil);
    }
    TwoListed(Nil, Nil);
  }

  // ---- What constant templates cost ----------------------------------------------------------

  /** Symbols and other atoms, and proper lists of such, with no empty list inside. */
  predicate Quotable(t: Val, m: Marks) {
    match t
    case Sym(_) => true
    case Lit(_) => true
    case Cons(h, r) =>
      && h != m.qq && h != m.unq && h != m.spl && !IsLiteralHead(h) && h != EXPR
      && Quotable(h, m) && (r.Nil? || (r.Cons? && Quotable(r, m)))
    case _ => false
  }

  /** (quote x), and (list (quote x)), for every item x. */
  function Quotes(t: Val): Val {
    if t.Cons? then Cons(Cons(QUOTE, Cons(t.car, Nil)), Quotes(t.cdr)) else Nil
  }

  function ListedQuotes(t: Val): Val {
    if t.Cons? then Cons(List1(Cons(QUOTE, Cons(t.car, Nil))), ListedQuotes(t.cdr)) else Nil
  }

  lemma {:induction false} QuotesCollapse(t: Val)
    requires Proper(t)
    ensures AllListForms(ListedQuotes(t)) && MappendCdr(ListedQuotes(t)) == Quotes(t)
    ensures AllQuoteForms(Quotes(t)) && MapSecond(Quotes(t)) == t
  {
    if t.Cons? {
      QuotesCollapse(t.cdr);
      JoinOne(Cons(QUOTE, Cons(t.car, Nil)), Quotes(t.cdr));
    }
  }

  lemma {:induction false} JoinOne(q: Val, rest: Val)
    ensures Join(Cons(q, Nil), rest) == Cons(q, rest)
  {
    assert Join(Nil, rest) == rest;
  }

  /** A template with nothing to evaluate is compiled to a single quote. */
  lemma {:induction false} QuotedTemplate(t: Val, m: Marks)
    requires Quotable(t, m)
    ensures Flat(t, m) && Expand(t, m) == Some(Cons(QUOTE, Cons(t, Nil)))
    ensures t.Cons? ==> Proper(t) && ExpandRec(t, m) == Some(Cons(APPEND, ListedQuotes(t)))
  {
    if t.Cons? {
      var h, r := t.car, t.cdr;
      QuotedTemplate(h, m);
      if r.Cons? { QuotedTemplate(r, m); } else { assert Flat(Nil, m) && ExpandRec(Nil, m) == Some(Nil); }
      assert !IsMarked(h, m) && ExpandItem(h, m) == Some(List1(Cons(QUOTE, Cons(h, Nil))));
      QuotesCollapse(t);
      QuotedList(t);
    }
  }

  lemma {:induction false} QuotedList(t: Val)
    requires t.Cons? && Proper(t)
    ensures OptimizeQquote(Cons(APPEND, ListedQuotes(t))) == Cons(QUOTE, Cons(t, Nil))
  {
    QuotesCollapse(t);
    assert OptimizeForm(Cons(APPEND, ListedQuotes(t))) == OptimizeList(Quotes(t));
  }

  /** One quoted item in front of something unquoted is compiled to one list*, or to one list if
      the unquoted form is one. */
  lemma {:induction false} DottedUnquote(h: Val, x: Val, m: Marks)
    requires (h.Sym? || h.Lit?) && h != m.qq && h != m.unq && h != m.spl && !IsLiteralHead(h) && h != EXPR
    requires m.unq.Sym? && m.unq != m.spl && !IsLiteralHead(m.unq) && !x.Nil?
    ensures var t := Cons(h, Cons(m.unq, Cons(x, Nil)));
            var q := Cons(QUOTE, Cons(h, Nil));
            && Flat(t, m)
            && (!IsListForm(x) ==> Expand(t, m) == Some(Cons(LIST_STAR, Cons(q, Cons(XformListedQuote(x), Nil)))))
            && (IsListForm(x) && Proper(x) && !AllQuoteForms(x.cdr) ==>
                  Expand(t, m) == Some(Cons(LIST, Cons(q, MapXform(x.cdr)))))
  {
    var r, q := Cons(m.unq, Cons(x, Nil)), Cons(QUOTE, Cons(h, Nil));
    assert ExpandRec(r, m) == Some(x);
    assert Expand(h, m) == Some(q);
    AppendOne(q, x);
    assert XformListedQuote(q) == q && MapXform(Nil) == Nil;
    assert MapXform(Cons(x, Nil)) == Cons(XformListedQuote(x), Nil);
    assert ExpandRec(Cons(h, r), m) == Some(Cons(APPEND, Cons(List1(q), Cons(x, Nil))));
  }

  lemma {:induction false} AppendOne(q: Val, x: Val)
    requires IsQuoteForm(q)
    ensures var args := Cons(List1(q), Cons(x, Nil));
            && (!IsListForm(x) ==>
                  OptimizeForm(Cons(APPEND, args)) == Cons(LIST_STAR, Cons(q, Cons(x, Nil))))
            && (IsListForm(x) && Proper(x) ==> OptimizeForm(Cons(APPEND, args)) == OptimizeList(Cons(q, x.cdr)))
  {
    var args := Cons(List1(q), Cons(x, Nil));
    JoinOne(q, Nil);
    JoinOne(q, Cons(x, Nil));
    assert ButLast(Cons(x, Nil)) == Nil && LastCell(Cons(x, Nil)) == Cons(x, Nil);
    assert ButLast(args) == Cons(List1(q), Nil) && LastCell(args) == Cons(x, Nil);
    assert MappendCdr(Nil) == Nil && MappendCdr(Cons(List1(q), Nil)) == Join(Cons(q, Nil), MappendCdr(Nil));
    assert AllListForms(Nil) && AllListForms(Cons(List1(q), Nil));
    assert AllListForms(args) <==> AllListForms(Cons(x, Nil));
    if IsListForm(x) && Proper(x) {
      JoinNil(x.cdr);
      JoinOne(q, x.cdr);
      assert AllListForms(Cons(x, Nil));
      assert MappendCdr(Cons(x, Nil)) == Join(x.cdr, Nil);
      assert MappendCdr(args) == Cons(q, x.cdr);
    }
  }

  /** A template of atoms, conses, ranges and tree nodes, without marks or literals. */
  predicate Constant(t: Val, m: Marks) {
    match t
    case Rng(a, b) => Constant(a, m) && Constant(b, m)
    case Node(k, l, r) => Constant(k, m) && Constant(l, m) && Constant(r, m)
    case Cons(h, r) =>
      h != m.qq && h != m.unq && h != m.spl && !IsLiteralHead(h) && Constant(h, m) && Constant(r, m)
    case _ => true
  }

  /** Such a template is its own instance. */
  lemma {:induction false} ConstantItself(o: Oracle, t: Val, m: Marks, trace: seq<Val>)
    requires Constant(t, m)
    ensures Instantiate(o, t, m, trace) == Done(t, trace)
  {
    match t
    case Rng(a, b) =>
      ConstantItself(o, a, m, trace);
      ConstantItself(o, b, m, trace);
      InstantiateTwo(o, [a, b], m, trace, t);
    case Node(k, l, r) =>
      ConstantItself(o, k, m, trace);
      ConstantItself(o, l, m, trace);
      ConstantItself(o, r, m, trace);
      assert [k, l, r][1..] == [l, r] && [k] + [l, r] == [k, l, r];
      InstantiateTwo(o, [l, r], m, trace, t);
    case Cons(h, r) =>
      ConstantItself(o, h, m, trace);
      ConstantItself(o, r, m, trace);
    case _ =>
  }

  lemma {:induction false} InstantiateTwo(o: Oracle, ps: seq<Val>, m: Marks, trace: seq<Val>, top: Val)
    requires |ps| == 2 && Below(ps, top)
    requires Instantiate(o, ps[0], m, trace).Done?
    requires Instantiate(o, ps[1], m, Instantiate(o, ps[0], m, trace).trace).Done?
    ensures var x := Instantiate(o, ps[0], m, trace); var y := Instantiate(o, ps[1], m, x.trace);
            InstantiateAll(o, ps, m, trace, top) == Args([x.v, y.v], y.trace)
  {
    var x := Instantiate(o, ps[0], m, trace);
    var y := Instantiate(o, ps[1], m, x.trace);
    assert ps[1..][1..] == [] && ps[1..][0] == ps[1];
    assert InstantiateAll(o, ps[1..], m, x.trace, top) == Args([y.v] + [], y.trace);
    assert [x.v] + ([y.v] + []) == [x.v, y.v];
  }

  /** A literal's instance is the maker's name with the instances of the second item and of
      what follows. */
  lemma {:induction false} InstantiateLiterals(o: Oracle, a: Val, r: Val, m: Marks, trace: seq<Val>, x: Res, y: Res)
    requires x.Done? && x == Instantiate(o, a, m, trace) && y.Done? && y == Instantiate(o, r, m, x.trace)
    requires Unmarked("sys:hash-lit", m) && Unmarked("sys:struct-lit", m)
    requires Unmarked("sys:tree-lit", m) && Unmarked("sys:vector-lit", m)
    ensures Instantiate(o, Literal("sys:hash-lit", Some((a, r))), m, trace) ==
            Done(Built(Sym("hash-construct"), [x.v, y.v]), y.trace)
    ensures Instantiate(o, Literal("sys:struct-lit", Some((a, r))), m, trace) ==
            Done(Built(Sym("sys:make-struct-lit"), [x.v, y.v]), y.trace)
    ensures Instantiate(o, Literal("sys:tree-lit", Some((a, r))), m, trace) ==
            Done(Built(Sym("sys:tree-construct"), [x.v, y.v]), y.trace)
    ensures Instantiate(o, Literal("sys:vector-lit", Some((a, r))), m, trace) ==
            Done(Built(Sym("vec-list"), [x.v]), x.trace)
  {
    InstantiatePair(o, HASH_LIT, a, r, m, trace, x, y);
    InstantiatePair(o, STRUCT_LIT, a, r, m, trace, x, y);
    InstantiatePair(o, TREE_LIT, a, r, m, trace, x, y);
    InstantiateSingle(o, a, r, m, trace, x);
  }

  lemma {:induction false} InstantiateSingle(o: Oracle, a: Val, r: Val, m: Marks, trace: seq<Val>, x: Res)
    requires x.Done? && x == Instantiate(o, a, m, trace) && VECTOR_LIT != m.unq && VECTOR_LIT != m.spl
    ensures Instantiate(o, Cons(VECTOR_LIT, Cons(a, r)), m, trace) == Done(Built(Sym("vec-list"), [x.v]), x.trace)
  {
    var t := Cons(VECTOR_LIT, Cons(a, r));
    assert PartsOf(t) == [a] && [a][1..] == [] && [x.v] + [] == [x.v];
    assert InstantiateAll(o, [a], m, trace, t) == Args([x.v], x.trace);
  }

  lemma {:induction false} InstantiatePair(o: Oracle, h: Val, a: Val, r: Val, m: Marks, trace: seq<Val>, x: Res, y: Res)
    requires x.Done? && x == Instantiate(o, a, m, trace) && y.Done? && y == Instantiate(o, r, m, x.trace)
    requires IsLiteralHead(h) && h != VECTOR_LIT && h != m.unq && h != m.spl
    ensures var t := Cons(h, Cons(a, r));
            Instantiate(o, t, m, trace) == Done(Built(MakerOf(t), [x.v, y.v]), y.trace)
  {
    var t := Cons(h, Cons(a, r));
    assert PartsOf(t) == [a, r];
    InstantiateTwo(o, [a, r], m, trace, t);
  }

  /** An item with something unquoted and an item with something to splice, in front of the
      rest: the one's value is one item, the other's items take its place. */
  lemma {:induction false} InstantiateItems(o: Oracle, x: Val, y: Val, r: Val, m: Marks, trace: seq<Val>)
    requires m.unq.Sym? && m.spl.Sym? && m.unq != m.spl
    requires Eval(o, x, trace).Done? && Eval(o, y, Eval(o, x, trace).trace).Done?
    requires Proper(Eval(o, y, Eval(o, x, trace).trace).v)
    requires Instantiate(o, r, m, Eval(o, y, Eval(o, x, trace).trace).trace).Done? && r.Cons?
    ensures var t := Cons(Cons(m.unq, Cons(x, Nil)), Cons(Cons(m.spl, Cons(y, Nil)), r));
            var u := Eval(o, x, trace);
            var s := Eval(o, y, u.trace);
            var w := Instantiate(o, r, m, s.trace);
            var v := Instantiate(o, t, m, trace);
            v.Done? && v.trace == w.trace && Items(v.v) == [u.v] + Items(s.v) + Items(w.v)
  {
    var u := Eval(o, x, trace);
    var s := Eval(o, y, u.trace);
    var w := Instantiate(o, r, m, s.trace);
    JoinItems(s.v, w.v);
    SpliceInstance(o, y, r, m, u.trace);
    assert [u.v] + (Items(s.v) + Items(w.v)) == [u.v] + Items(s.v) + Items(w.v);
  }

  lemma {:induction false} SpliceInstance(o: Oracle, y: Val, r: Val, m: Marks, trace: seq<Val>)
    requires m.unq.Sym? && m.spl.Sym? && m.unq != m.spl && r.Cons?
    requires Eval(o, y, trace).Done? && Proper(Eval(o, y, trace).v)
    requires Instantiate(o, r, m, Eval(o, y, trace).trace).Done?
    ensures var s := Eval(o, y, trace);
            var w := Instantiate(o, r, m, s.trace);
            Instantiate(o, Cons(Cons(m.spl, Cons(y, Nil)), r), m, trace) == Done(Join(s.v, w.v), w.trace)
  {
  }

  // ---- Order of evaluation ------------------------------------------------------------------

  /** The unquoted and spliced forms of a template, left to right. */
  function Unquoted(t: Val, m: Marks): seq<Val>
    decreases t, 1, 0
  {
    if IsObject(t, m) then UnquotedInAll(PartsOf(t), m, t)
    else
      match t
      case Cons(h, r) =>
        if h == m.spl then []
        else if h == m.unq then [Second(t)]
        else (if IsMarked(h, m) then [Second(h)] else Unquoted(h, m)) + Unquoted(r, m)
      case _ => []
  }

  function UnquotedInAll(ps: seq<Val>, m: Marks, ghost top: Val): seq<Val>
    requires Below(ps, top)
    decreases top, 0, |ps|
  {
    if ps == [] then [] else Unquoted(ps[0], m) + UnquotedInAll(ps[1..], m, top)
  }

  /** Evaluating forms one after the other, each once. */
  function EvalSeq(o: Oracle, fs: seq<Val>, trace: seq<Val>): ArgsRes {
    EvalArgs(o, ListStar(fs, Nil), trace)
  }

  lemma {:induction false} EvalSeqConcat(o: Oracle, fs: seq<Val>, gs: seq<Val>, trace: seq<Val>)
    requires EvalSeq(o, fs, trace).Args? && EvalSeq(o, gs, EvalSeq(o, fs, trace).trace).Args?
    ensures EvalSeq(o, fs + gs, trace).Args?
    ensures EvalSeq(o, fs + gs, trace).trace == EvalSeq(o, gs, EvalSeq(o, fs, trace).trace).trace
  {
    ListStarProper(fs);
    ListStarConcat(fs, gs, Nil);
    JoinListStar(fs, Nil, ListStar(gs, Nil));
    EvalArgsJoin(o, ListStar(fs, Nil), ListStar(gs, Nil), trace);
  }

  lemma {:induction false} EvalSeqOne(o: Oracle, f: Val, trace: seq<Val>)
    requires Eval(o, f, trace).Done?
    ensures EvalSeq(o, [f], trace).Args? && EvalSeq(o, [f], trace).trace == Eval(o, f, trace).trace
  {
    assert ListStar([f], Nil) == Cons(f, Nil);
    EvalOneArg(o, f, trace);
  }

  lemma {:induction false} InstantiateOrder(o: Oracle, t: Val, m: Marks, trace: seq<Val>)
    requires Instantiate(o, t, m, trace).Done?
    ensures EvalSeq(o, Unquoted(t, m), trace).Args?
    ensures EvalSeq(o, Unquoted(t, m), trace).trace == Instantiate(o, t, m, trace).trace
    decreases t, 1, 0
  {
    if IsObject(t, m) {
      AllInOrder(o, PartsOf(t), m, trace, t);
    } else if t.Cons? {
      var h, r := t.car, t.cdr;
      if h == m.unq {
        EvalSeqOne(o, Second(t), trace);
      } else {
        var x := if IsMarked(h, m) then Eval(o, Second(h), trace) else Instantiate(o, h, m, trace);
        if IsMarked(h, m) { EvalSeqOne(o, Second(h), trace); } else { InstantiateOrder(o, h, m, trace); }
        InstantiateOrder(o, r, m, x.trace);
        EvalSeqConcat(o, if IsMarked(h, m) then [Second(h)] else Unquoted(h, m), Unquoted(r, m), trace);
      }
    }
  }

  lemma {:induction false} AllInOrder(o: Oracle, ps: seq<Val>, m: Marks, trace: seq<Val>, top: Val)
    requires Below(ps, top) && InstantiateAll(o, ps, m, trace, top).Args?
    ensures EvalSeq(o, UnquotedInAll(ps, m, top), trace).Args?
    ensures EvalSeq(o, UnquotedInAll(ps, m, top), trace).trace == InstantiateAll(o, ps, m, trace, top).trace
    decreases top, 0, |ps|
  {
    if ps != [] {
      InstantiateOrder(o, ps[0], m, trace);
      AllInOrder(o, ps[1..], m, Instantiate(o, ps[0], m, trace).trace, top);
      EvalSeqConcat(o, Unquoted(ps[0], m), UnquotedInAll(ps[1..], m, top), trace);
    }
  }

  /** Compiled code does the evaluations that its unquoted forms do, each evaluated once,
      left to right. */
  lemma {:induction false} EvaluatedOnceInOrder(o: Oracle, t: Val, m: Marks, trace: seq<Val>)
    requires Flat(t, m) && Expand(t, m).Some? && Instantiate(o, t, m, trace).Done? && DottedObjects(t, m) == 0
    ensures Eval(o, Expand(t, m).value, trace).Done? && EvalSeq(o, Unquoted(t, m), trace).Args?
    ensures Eval(o, Expand(t, m).value, trace).trace == EvalSeq(o, Unquoted(t, m), trace).trace
  {
    ExpandMeans(o, t, m, trace);
    InstantiateOrder(o, t, m, trace);
  }

  /** Variables and calls of anything outside the quasiquote vocabulary. */
  predicate IsOpaque(form: Val) {
    form.Sym? || (form.Cons? && form.car != QUOTE && !IsCall(form.car))
  }

  /** For such forms, these evaluations are the forms themselves. */
  lemma {:induction false} OpaqueSeq(o: Oracle, fs: seq<Val>, trace: seq<Val>)
    requires forall f | f in fs :: IsOpaque(f)
    ensures EvalSeq(o, fs, trace).Args? && EvalSeq(o, fs, trace).trace == trace + fs
  {
    if fs != [] {
      assert IsOpaque(fs[0]);
      assert Eval(o, fs[0], trace) == Done(o(fs[0], trace), trace + [fs[0]]);
      OpaqueSeq(o, fs[1..], trace + [fs[0]]);
      assert trace + [fs[0]] + fs[1..] == trace + fs;
    } else {
      assert trace + [] == trace;
    }
  }

  // ---- Where it goes wrong ------------------------------------------------------------------

  /** Opaque evaluations of forms evaluated one after the other. */
  function Weight(fs: seq<Val>): nat {
    OpaqueArgs(ListStar(fs, Nil))
  }

  lemma {:induction false} WeightConcat(fs: seq<Val>, gs: seq<Val>)
    ensures Weight(fs + gs) == Weight(fs) + Weight(gs)
  {
    ListStarProper(fs);
    ListStarConcat(fs, gs, Nil);
    JoinListStar(fs, Nil, ListStar(gs, Nil));
    OpaqueJoin(ListStar(fs, Nil), ListStar(gs, Nil));
  }

  lemma {:induction false} WeightOne(f: Val)
    ensures Weight([f]) == Opaque(f)
  {
    assert ListStar([f], Nil) == Cons(f, Nil);
    assert OpaqueArgs(Cons(f, Nil)) == Opaque(f) + OpaqueArgs(Nil);
  }

  /** Opaque evaluations that one item of a list brings with it. */
  function ItemWeight(h: Val, m: Marks): nat {
    if IsMarked(h, m) then Opaque(Second(h)) else Weight(Unquoted(h, m)) + DottedObjects(h, m)
  }

  lemma {:induction false} ItemCounts(h: Val, m: Marks)
    requires (IsMarked(h, m) || Flat(h, m)) && ExpandItem(h, m).Some?
    requires !IsMarked(h, m) ==>
               Expand(h, m).Some? && Opaque(Expand(h, m).value) == Weight(Unquoted(h, m)) + DottedObjects(h, m)
    ensures Opaque(ExpandItem(h, m).value) == ItemWeight(h, m)
  {
    var e := if IsMarked(h, m) then Second(h) else Expand(h, m).value;
    assert OpaqueArgs(Cons(e, Nil)) == Opaque(e) + OpaqueArgs(Nil) == Opaque(e);
  }

  /** Spreading an object's form costs one extra evaluation, of its maker's name. */
  lemma {:induction false} AssembleCounts(fx: Val, r: Val, m: Marks)
    requires Flat(r, m) && ExpandRec(r, m).Some?
    ensures var rx := ExpandRec(r, m).value;
            Opaque(Assemble(fx, r, rx, m)) == Opaque(fx) + Opaque(rx) + if IsObject(r, m) then 1 else 0
  {
    var rx := ExpandRec(r, m).value;
    assert OpaqueArgs(Cons(rx, Nil)) == Opaque(rx) + OpaqueArgs(Nil) == Opaque(rx);
    if rx.Cons? {
      RestShape(r, m);
      assert OpaqueArgs(rx) == Opaque(rx.car) + OpaqueArgs(rx.cdr);
      assert OpaqueArgs(Cons(fx, rx)) == Opaque(fx) + OpaqueArgs(rx);
    }
  }

  lemma {:induction false} ExpandCounts(t: Val, m: Marks)
    requires Flat(t, m) && Expand(t, m).Some?
    ensures Opaque(ExpandRec(t, m).value) == Weight(Unquoted(t, m)) + DottedObjects(t, m)
    ensures Opaque(Expand(t, m).value) == Weight(Unquoted(t, m)) + DottedObjects(t, m)
    decreases t, 2, 0
  {
    if IsObject(t, m) {
      AllCount(PartsOf(t), m, t);
      MakerArity(t, m);
    } else if t.Cons? && t.car != m.unq {
      ConsCounts(t, m);
    } else if t.Cons? {
      WeightOne(Second(t));
    }
    OptimizeCounts(ExpandRec(t, m).value);
  }

  lemma {:induction false} ConsCounts(t: Val, m: Marks)
    requires t.Cons? && t.car != m.unq && !IsObject(t, m) && Flat(t, m) && ExpandRec(t, m).Some?
    ensures Opaque(ExpandRec(t, m).value) == Weight(Unquoted(t, m)) + DottedObjects(t, m)
    decreases t, 1, 0
  {
    var h, r := t.car, t.cdr;
    if IsMarked(h, m) { WeightOne(Second(h)); } else { ExpandCounts(h, m); }
    ItemCounts(h, m);
    ExpandCounts(r, m);
    AssembleCounts(ExpandItem(h, m).value, r, m);
    WeightConcat(if IsMarked(h, m) then [Second(h)] else Unquoted(h, m), Unquoted(r, m));
  }

  lemma {:induction false} AllCount(ps: seq<Val>, m: Marks, top: Val)
    requires Below(ps, top) && AllFlat(ps, m) && ExpandAll(ps, m, top).Some?
    ensures Weight(ExpandAll(ps, m, top).value) == Weight(UnquotedInAll(ps, m, top)) + DottedInAll(ps, m, top)
    decreases top, 0, |ps|
  {
    if ps != [] {
      var e, es := Expand(ps[0], m).value, ExpandAll(ps[1..], m, top).value;
      ExpandCounts(ps[0], m);
      AllCount(ps[1..], m, top);
      WeightConcat(Unquoted(ps[0], m), UnquotedInAll(ps[1..], m, top));
      WeightConcat([e], es);
      WeightOne(e);
    }
  }

  /** The quasiquote compiler is right on a template exactly when no list in it ends in a
      range, a tree node or a literal: then the code evaluates to the direct instance,
      evaluating the same opaque forms in the same order. Otherwise it never does, because
      the form that makes the object is spread into the enclosing append and its first
      symbol is evaluated as a variable. */
  lemma {:induction false} QuasiquoteMeaning(o: Oracle, t: Val, m: Marks, trace: seq<Val>)
    requires Flat(t, m) && Expand(t, m).Some? && Instantiate(o, t, m, trace).Done?
    ensures Eval(o, Expand(t, m).value, trace) == Instantiate(o, t, m, trace) <==> DottedObjects(t, m) == 0
  {
    if DottedObjects(t, m) == 0 {
      ExpandMeans(o, t, m, trace);
    } else {
      ExpandCounts(t, m);
      InstantiateOrder(o, t, m, trace);
      EvalArgsCounts(o, ListStar(Unquoted(t, m), Nil), trace);
      if Eval(o, Expand(t, m).value, trace).Done? { EvalCounts(o, Expand(t, m).value, trace); }
    }
  }

  /** Two of the smallest templates that are compiled wrongly: (a . #R(1 2)), and
      (a . #(1)), which is read as (a sys:vector-lit (1)). */
  lemma {:induction false} DottedObjectExamples(o: Oracle, m: Marks)
    requires m == Marks(Sym("qquote"), Sym("unquote"), Sym("splice"))
    ensures var range := Cons(Sym("a"), Rng(Lit(1), Lit(2)));
            Flat(range, m) && Instantiate(o, range, m, []) == Done(range, [])
            && Expand(range, m).Some? && Eval(o, Expand(range, m).value, []) != Done(range, [])
    ensures var items := Cons(Lit(1), Nil);
            var vector, made := Cons(Sym("a"), Cons(VECTOR_LIT, Cons(items, Nil))), Built(VEC_LIST, [items]);
            Flat(vector, m) && Instantiate(o, vector, m, []) == Done(Cons(Sym("a"), made), [])
            && Expand(vector, m).Some? && Eval(o, Expand(vector, m).value, []) != Done(Cons(Sym("a"), made), [])
  {
    RangeExample(o, m);
    VectorExample(o, m);
  }

  /** An object at the end of a list of one item. */
  lemma {:induction false} DottedObject(o: Oracle, name: string, r: Val, made: Val, m: Marks)
    requires Sym(name) != m.qq && Sym(name) != m.unq && Sym(name) != m.spl
    requires !IsLiteralHead(Sym(name)) && Sym(name) != EXPR && IsObject(r, m) && Flat(r, m)
    requires Instantiate(o, r, m, []) == Done(made, [])
    ensures var t := Cons(Sym(name), r); var want := Done(Cons(Sym(name), made), []);
            Flat(t, m) && Instantiate(o, t, m, []) == want
            && Expand(t, m).Some? && Eval(o, Expand(t, m).value, []) != want
  {
    var t := Cons(Sym(name), r);
    assert Instantiate(o, Sym(name), m, []) == Done(Sym(name), []);
    assert DottedObjects(t, m) > 0;
    ExpandFails(o, t, m, []);
    QuasiquoteMeaning(o, t, m, []);
  }

  lemma {:induction false} RangeExample(o: Oracle, m: Marks)
    requires m == Marks(Sym("qquote"), Sym("unquote"), Sym("splice"))
    ensures var range := Cons(Sym("a"), Rng(Lit(1), Lit(2)));
            Flat(range, m) && Instantiate(o, range, m, []) == Done(range, [])
            && Expand(range, m).Some? && Eval(o, Expand(range, m).value, []) != Done(range, [])
  {
    var r := Rng(Lit(1), Lit(2));
    InstantiateAtoms(o, Lit(1), Lit(2), m, r);
    DottedObject(o, "a", r, r, m);
  }

  lemma {:induction false} InstantiateAtoms(o: Oracle, a: Val, b: Val, m: Marks, top: Val)
    requires a.Lit? && b.Lit? && a < top && b < top
    ensures InstantiateAll(o, [b], m, [], top) == Args([b], [])
    ensures InstantiateAll(o, [a, b], m, [], top) == Args([a, b], [])
  {
    assert [b][1..] == [] && [b] + [] == [b];
    assert [a, b][1..] == [b] && [a] + [b] == [a, b];
  }

  lemma {:induction false} VectorExample(o: Oracle, m: Marks)
    requires m == Marks(Sym("qquote"), Sym("unquote"), Sym("splice"))
    ensures var items := Cons(Lit(1), Nil);
            var vector, made := Cons(Sym("a"), Cons(VECTOR_LIT, Cons(items, Nil))), Built(VEC_LIST, [items]);
            Flat(vector, m) && Instantiate(o, vector, m, []) == Done(Cons(Sym("a"), made), [])
            && Expand(vector, m).Some? && Eval(o, Expand(vector, m).value, []) != Done(Cons(Sym("a"), made), [])
  {
    var items := Cons(Lit(1), Nil);
    var r := Cons(VECTOR_LIT, Cons(items, Nil));
    FlatVector(o, items, m);
    DottedObject(o, "a", r, Built(VEC_LIST, [items]), m);
  }

  lemma {:induction false} FlatVector(o: Oracle, items: Val, m: Marks)
    requires VECTOR_LIT != m.qq && VECTOR_LIT != m.unq && VECTOR_LIT != m.spl
    requires m.qq.Sym? && m.unq.Sym? && m.spl.Sym? && items == Cons(Lit(1), Nil)
    ensures var r := Cons(VECTOR_LIT, Cons(items, Nil));
            IsObject(r, m) && Flat(r, m) && Instantiate(o, r, m, []) == Done(Built(VEC_LIST, [items]), [])
  {
    var r := Cons(VECTOR_LIT, Cons(items, Nil));
    assert PartsOf(r) == [items] && [items][1..] == [] && [items] + [] == [items];
    assert !IsObject(items, m) && !IsMarked(Lit(1), m) && Flat(Lit(1), m) && Flat(Nil, m);
    assert Instantiate(o, Lit(1), m, []) == Done(Lit(1), []) && Instantiate(o, Nil, m, []) == Done(Nil, []);
    assert Flat(items, m) && Instantiate(o, items, m, []) == Done(items, []);
    assert InstantiateAll(o, [items], m, [], r) == Args([items], []);
  }
}
