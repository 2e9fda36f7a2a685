/** Lisp forms and the evaluation of the code that quasiquotes compile to. */
module Forms {

  /** Built is an object made of parts, such as a vector or a hash, with the symbol of the
      function that makes it. */
  datatype Val =
    | Nil | Sym(name: string) | Lit(id: int) | Cons(car: Val, cdr: Val)
    | Rng(from: Val, to: Val) | Node(key: Val, left: Val, right: Val) | Built(maker: Val, parts: seq<Val>)

  const QUOTE := Sym("quote")
  const LIST := Sym("list")
  const LIST_STAR := Sym("list*")
  const APPEND := Sym("append")
  const RCONS := Sym("rcons")
  const TNODE := Sym("tnode")
  const VEC_LIST := Sym("vec-list")
  const HASH_CONSTRUCT := Sym("hash-construct")
  const MAKE_STRUCT_LIT := Sym("sys:make-struct-lit")
  const TREE_CONSTRUCT := Sym("sys:tree-construct")

  /** The functions that make an object of their arguments. */
  predicate IsMaker(op: Val) {
    op == RCONS || op == TNODE || op == VEC_LIST
    || op == HASH_CONSTRUCT || op == MAKE_STRUCT_LIT || op == TREE_CONSTRUCT
  }

  function Arity(op: Val): nat {
    if op == TNODE then 3 else if op == VEC_LIST then 1 else 2
  }

  function Make(op: Val, vs: seq<Val>): Val {
    if op == RCONS && |vs| == 2 then Rng(vs[0], vs[1])
    else if op == TNODE && |vs| == 3 then Node(vs[0], vs[1], vs[2])
    else Built(op, vs)
  }

  function Second(v: Val): Val {
    if v.Cons? && v.cdr.Cons? then v.cdr.car else Nil
  }

  // ---- Lists ------------------------------------------------------------------

  predicate Proper(v: Val) {
    v.Nil? || (v.Cons? && Proper(v.cdr))
  }

  /** The items of vs, followed by tail. */
  function ListStar(vs: seq<Val>, tail: Val): Val {
    if vs == [] then tail else Cons(vs[0], ListStar(vs[1..], tail))
  }

  /** Append onto the end of a proper list. */
  function Join(v: Val, tail: Val): Val {
    if v.Cons? then Cons(v.car, Join(v.cdr, tail)) else tail
  }

  lemma {:induction false} JoinListStar(vs: seq<Val>, mid: Val, tail: Val)
    requires Proper(mid)
    ensures Join(ListStar(vs, mid), tail) == ListStar(vs, Join(mid, tail))
  {
    if vs != [] { JoinListStar(vs[1..], mid, tail); }
  }

  lemma {:induction false} ListStarProper(vs: seq<Val>)
    ensures Proper(ListStar(vs, Nil))
  {
    if vs != [] { ListStarProper(vs[1..]); }
  }

  lemma {:induction false} ListStarConcat(vs: seq<Val>, ws: seq<Val>, tail: Val)
    ensures ListStar(vs + ws, tail) == ListStar(vs, ListStar(ws, tail))
  {
    if vs == [] {
      assert vs + ws == ws;
    } else {
      assert (vs + ws)[1..] == vs[1..] + ws;
      ListStarConcat(vs[1..], ws, tail);
    }
  }

  lemma {:induction false} JoinNil(v: Val)
    requires Proper(v)
    ensures Join(v, Nil) == v
  {
    if v.Cons? { JoinNil(v.cdr); }
  }

  /** The items of a list. */
  function Items(v: Val): seq<Val> {
    if v.Cons? then [v.car] + Items(v.cdr) else []
  }

  lemma {:induction false} ListStarItems(vs: seq<Val>)
    ensures Items(ListStar(vs, Nil)) == vs
  {
    if vs != [] { ListStarItems(vs[1..]); }
  }

  lemma {:induction false} JoinItems(a: Val, b: Val)
    ensures Items(Join(a, b)) == Items(a) + Items(b)
  {
    if a.Cons? {
      JoinItems(a.cdr, b);
      assert [a.car] + (Items(a.cdr) + Items(b)) == [a.car] + Items(a.cdr) + Items(b);
    } else {
      assert [] + Items(b) == Items(b);
    }
  }

  // ---- Evaluation ---------------------------------------------------------------

  /** A form outside the quasiquote vocabulary is opaque: its value may depend on
      everything evaluated before it, which the trace records in order. */
  type Oracle = (Val, seq<Val>) -> Val

  datatype Res = Done(v: Val, trace: seq<Val>) | Err
  datatype ArgsRes = Args(vs: seq<Val>, trace: seq<Val>) | BadArgs

  /** append: every argument but the last must be a proper list. */
  function AppendValues(vs: seq<Val>): Res {
    if vs == [] then Done(Nil, [])
    else if |vs| == 1 then Done(vs[0], [])
    else
      var rest := AppendValues(vs[1..]);
      if rest.Err? || !Proper(vs[0]) then Err else Done(Join(vs[0], rest.v), [])
  }

  function Apply(op: Val, vs: seq<Val>): Res {
    if op == LIST then Done(ListStar(vs, Nil), [])
    else if op == LIST_STAR then Done(if vs == [] then Nil else ListStar(vs[..|vs| - 1], vs[|vs| - 1]), [])
    else if op == APPEND then AppendValues(vs)
    else if |vs| == Arity(op) then Done(Make(op, vs), [])
    else Err
  }

  predicate IsCall(op: Val) {
    op == LIST || op == LIST_STAR || op == APPEND || IsMaker(op)
  }

  function Eval(o: Oracle, form: Val, trace: seq<Val>): Res {
    match form
    case Nil => Done(Nil, trace)
    case Sym(_) => Done(o(form, trace), trace + [form])
    case Cons(op, args) =>
      if op == QUOTE then
        if args.Cons? && args.cdr.Nil? then Done(args.car, trace) else Err
      else if IsCall(op) then
        Finish(op, EvalArgs(o, args, trace))
      else
        Done(o(form, trace), trace + [form])
    case _ => Done(form, trace)
  }

  /** Call the operator once its arguments have been evaluated. */
  function Finish(op: Val, a: ArgsRes): Res {
    if a.BadArgs? then Err else
      var r := Apply(op, a.vs);
      if r.Err? then Err else Done(r.v, a.trace)
  }

  /** Arguments, left to right. */
  function EvalArgs(o: Oracle, args: Val, trace: seq<Val>): ArgsRes {
    match args
    case Nil => Args([], trace)
    case Cons(a, rest) =>
      var r := Eval(o, a, trace);
      if r.Err? then BadArgs else
        var s := EvalArgs(o, rest, r.trace);
        if s.BadArgs? then BadArgs else Args([r.v] + s.vs, s.trace)
    case _ => BadArgs
  }

  /** The values of more arguments, after those of the first ones. */
  function Followed(r: ArgsRes, s: ArgsRes): ArgsRes {
    if r.BadArgs? || s.BadArgs? then BadArgs else Args(r.vs + s.vs, s.trace)
  }

  /** The operators: quote yields its argument, list and list* a list and a list with a given
      tail, append joins a proper list to anything and refuses to join anything else. */
  lemma {:induction false} EvalBasics(o: Oracle, a: Val, b: Val, trace: seq<Val>)
    ensures var x, y := Cons(Sym("quote"), Cons(a, Nil)), Cons(Sym("quote"), Cons(b, Nil));
            var args := Cons(x, Cons(y, Nil));
            && Eval(o, x, trace) == Done(a, trace)
            && Eval(o, Cons(Sym("list"), args), trace) == Done(Cons(a, Cons(b, Nil)), trace)
            && Eval(o, Cons(Sym("list*"), args), trace) == Done(Cons(a, b), trace)
            && Eval(o, Cons(Sym("append"), args), trace) == (if Proper(a) then Done(Join(a, b), trace) else Err)
            && Eval(o, Cons(Sym("rcons"), args), trace) == Done(Rng(a, b), trace)
  {
    var x, y := Cons(QUOTE, Cons(a, Nil)), Cons(QUOTE, Cons(b, Nil));
    assert EvalArgs(o, Nil, trace) == Args([], trace);
    assert EvalArgs(o, Cons(y, Nil), trace) == Args([b] + [], trace);
    assert EvalArgs(o, Cons(x, Cons(y, Nil)), trace) == Args([a] + ([b] + []), trace);
    assert [a] + ([b] + []) == [a, b];
    ApplyTwo(a, b);
  }

  lemma {:induction false} ApplyTwo(a: Val, b: Val)
    ensures Apply(LIST, [a, b]) == Done(Cons(a, Cons(b, Nil)), []) && Apply(LIST_STAR, [a, b]) == Done(Cons(a, b), [])
    ensures Apply(APPEND, [a, b]) == (if Proper(a) then Done(Join(a, b), []) else Err)
    ensures Apply(RCONS, [a, b]) == Done(Rng(a, b), [])
  {
    assert [a, b][1..] == [b] && [b][1..] == [] && [a, b][..1] == [a] && [a][1..] == [];
    assert ListStar([b], Nil) == Cons(b, Nil);
    var vs := [a, b];
    assert ListStar([a], b) == Cons(a, b);
    assert ListStar(vs, Nil) == Cons(a, ListStar(vs[1..], Nil)) && vs[1..] == [b];
    assert AppendValues([b]) == Done(b, []);
    assert AppendValues([a, b]) == if Proper(a) then Done(Join(a, b), []) else Err;
    assert Make(RCONS, [a, b]) == Rng(a, b);
  }

  lemma {:induction false} EvalArgsJoin(o: Oracle, a: Val, b: Val, trace: seq<Val>)
    requires Proper(a)
    ensures var r := EvalArgs(o, a, trace);
            EvalArgs(o, Join(a, b), trace) == if r.BadArgs? then BadArgs else Followed(r, EvalArgs(o, b, r.trace))
  {
    if a.Cons? {
      var r := Eval(o, a.car, trace);
      if r.Done? {
        EvalArgsJoin(o, a.cdr, b, r.trace);
        var t := EvalArgs(o, a.cdr, r.trace);
        if t.Args? && EvalArgs(o, b, t.trace).Args? { FollowedFirst(r.v, t, EvalArgs(o, b, t.trace)); }
      }
    } else {
      FollowedNone(EvalArgs(o, b, trace), trace);
    }
  }

  lemma {:induction false} FollowedFirst(v: Val, t: ArgsRes, s: ArgsRes)
    requires t.Args? && s.Args?
    ensures Followed(Args([v] + t.vs, t.trace), s) == Args([v] + Followed(t, s).vs, s.trace)
  {
    assert [v] + (t.vs + s.vs) == ([v] + t.vs) + s.vs;
  }

  lemma {:induction false} FollowedNone(s: ArgsRes, trace: seq<Val>)
    ensures Followed(Args([], trace), s) == s
  {
    if s.Args? { assert [] + s.vs == s.vs; }
  }

  lemma {:induction false} EvalArgsProper(o: Oracle, args: Val, trace: seq<Val>)
    requires EvalArgs(o, args, trace).Args?
    ensures Proper(args)
  {
    if args.Cons? { EvalArgsProper(o, args.cdr, Eval(o, args.car, trace).trace); }
  }

  // ---- Counting opaque evaluations ------------------------------------------------

  /** How many opaque forms evaluating a form evaluates. */
  function Opaque(form: Val): nat {
    match form
    case Sym(_) => 1
    case Cons(op, args) => if op == QUOTE then 0 else if IsCall(op) then OpaqueArgs(args) else 1
    case _ => 0
  }

  function OpaqueArgs(args: Val): nat {
    if args.Cons? then Opaque(args.car) + OpaqueArgs(args.cdr) else 0
  }

  lemma {:induction false} EvalCounts(o: Oracle, form: Val, trace: seq<Val>)
    requires Eval(o, form, trace).Done?
    ensures |Eval(o, form, trace).trace| == |trace| + Opaque(form)
  {
    if form.Cons? && form.car != QUOTE && IsCall(form.car) { EvalArgsCounts(o, form.cdr, trace); }
  }

  lemma {:induction false} EvalArgsCounts(o: Oracle, args: Val, trace: seq<Val>)
    requires EvalArgs(o, args, trace).Args?
    ensures |EvalArgs(o, args, trace).trace| == |trace| + OpaqueArgs(args)
  {
    if args.Cons? {
      EvalCounts(o, args.car, trace);
      EvalArgsCounts(o, args.cdr, Eval(o, args.car, trace).trace);
    }
  }
}
