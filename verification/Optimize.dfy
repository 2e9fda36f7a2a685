/** optimize_qquote: rewrites of append, list, list* and rcons forms. */
module Optimize {
  import opened Forms

  predicate IsListForm(v: Val) {
    v.Cons? && v.car == LIST
  }

  predicate IsQuoteForm(v: Val) {
    v.Cons? && v.cdr.Cons? && v.cdr.cdr.Nil? && v.car == QUOTE
  }

  predicate AllListForms(args: Val) {
    args.Nil? || (args.Cons? && IsListForm(args.car) && AllListForms(args.cdr))
  }

  predicate AllQuoteForms(args: Val) {
    args.Nil? || (args.Cons? && IsQuoteForm(args.car) && AllQuoteForms(args.cdr))
  }

  /** mappend(cdr_f, args). */
  function MappendCdr(args: Val): Val {
    if args.Cons? && args.car.Cons? then Join(args.car.cdr, MappendCdr(args.cdr)) else Nil
  }

  /** mapcar(second_f, args). */
  function MapSecond(args: Val): Val {
    if args.Cons? then Cons(Second(args.car), MapSecond(args.cdr)) else args
  }

  function ButLast(args: Val): Val {
    if args.Cons? && args.cdr.Cons? then Cons(args.car, ButLast(args.cdr)) else Nil
  }

  function LastCell(args: Val): Val {
    if args.Cons? && args.cdr.Cons? then LastCell(args.cdr) else args
  }

  function OptimizeList(args: Val): Val {
    if AllQuoteForms(args) then Cons(QUOTE, Cons(MapSecond(args), Nil)) else Cons(LIST, args)
  }

  /** optimize_qquote_form. */
  function OptimizeForm(form: Val): Val {
    if !form.Cons? then form else
      var args := form.cdr;
      if form.car == APPEND then
        if AllListForms(args) then OptimizeList(MappendCdr(args))
        else if AllListForms(ButLast(args)) then Cons(LIST_STAR, Join(MappendCdr(ButLast(args)), LastCell(args)))
        else form
      else if form.car == LIST then
        OptimizeList(args)
      else if form.car == RCONS && args.Cons? && args.cdr.Cons? && args.cdr.cdr.Nil? && AllQuoteForms(args) then
        Rng(Second(args.car), Second(args.cdr.car))
      else
        form
  }

  /** xform_listed_quote: (list (quote x)) becomes (quote (x)). */
  function XformListedQuote(v: Val): Val {
    if v.Cons? && v.car == LIST && v.cdr.Cons? && v.cdr.cdr.Nil? && v.cdr.car.Cons? && v.cdr.car.car == QUOTE
    then Cons(QUOTE, Cons(v.cdr.car.cdr, Nil))
    else v
  }

  function MapXform(args: Val): Val {
    if args.Cons? then Cons(XformListedQuote(args.car), MapXform(args.cdr)) else args
  }

  /** optimize_qquote_args. */
  function OptimizeArgs(form: Val): Val {
    if form.Cons? && (form.car == LIST || form.car == APPEND || form.car == LIST_STAR)
    then Cons(form.car, MapXform(form.cdr))
    else form
  }

  function OptimizeQquote(form: Val): Val {
    OptimizeArgs(OptimizeForm(form))
  }

  /** An rcons of two quotes is the range, and a list of one quote a quote of a list. */
  lemma {:induction false} Folded(a: Val, b: Val)
    ensures OptimizeForm(Cons(Sym("rcons"), Cons(Cons(QUOTE, Cons(a, Nil)), Cons(Cons(QUOTE, Cons(b, Nil)), Nil)))) ==
            Rng(a, b)
    ensures XformListedQuote(Cons(Sym("list"), Cons(Cons(QUOTE, Cons(a, Nil)), Nil))) ==
            Cons(Sym("quote"), Cons(Cons(a, Nil), Nil))
  {
    var args := Cons(Cons(QUOTE, Cons(a, Nil)), Cons(Cons(QUOTE, Cons(b, Nil)), Nil));
    assert AllQuoteForms(args.cdr) && AllQuoteForms(args);
  }

  // ---- Meaning is preserved -------------------------------------------------------

  lemma {:induction false} QuotedArgs(o: Oracle, args: Val, trace: seq<Val>)
    requires AllQuoteForms(args)
    ensures EvalArgs(o, args, trace).Args? && EvalArgs(o, args, trace).trace == trace
    ensures ListStar(EvalArgs(o, args, trace).vs, Nil) == MapSecond(args)
  {
    if args.Cons? {
      QuotedArgs(o, args.cdr, trace);
      var vs := EvalArgs(o, args.cdr, trace).vs;
      assert ([args.car.cdr.car] + vs)[1..] == vs;
    }
  }

  lemma {:induction false} OptimizeListKeeps(o: Oracle, args: Val, trace: seq<Val>)
    ensures Eval(o, OptimizeList(args), trace) == Eval(o, Cons(LIST, args), trace)
  {
    if AllQuoteForms(args) { QuotedArgs(o, args, trace); }
  }

  /** The values of list forms, appended onto a value, are the values of all the
      arguments of those forms, consed onto it. */
  lemma {:induction false} ListFormsFlatten(o: Oracle, args: Val, trace: seq<Val>, x: Val)
    requires AllListForms(args) && EvalArgs(o, args, trace).Args?
    ensures var r, s := EvalArgs(o, args, trace), EvalArgs(o, MappendCdr(args), trace);
            s.Args? && s.trace == r.trace
            && AppendValues(r.vs + [x]) == Done(ListStar(s.vs, x), [])
    ensures Proper(MappendCdr(args))
  {
    if args.Cons? {
      var first := Eval(o, args.car, trace);
      var inner := EvalArgs(o, args.car.cdr, trace);
      ListFormsFlatten(o, args.cdr, first.trace, x);
      EvalArgsProper(o, args.car.cdr, trace);
      EvalArgsJoin(o, args.car.cdr, MappendCdr(args.cdr), trace);
      JoinProper(args.car.cdr, MappendCdr(args.cdr));
      var r, s := EvalArgs(o, args.cdr, first.trace), EvalArgs(o, MappendCdr(args.cdr), first.trace);
      FlattenOne(inner.vs, r.vs, s.vs, x);
    }
  }

  lemma {:induction false} FlattenOne(inner: seq<Val>, rest: seq<Val>, flat: seq<Val>, x: Val)
    requires AppendValues(rest + [x]) == Done(ListStar(flat, x), [])
    ensures AppendValues([ListStar(inner, Nil)] + rest + [x]) == Done(ListStar(inner + flat, x), [])
  {
    var first := ListStar(inner, Nil);
    assert ([first] + rest + [x])[1..] == rest + [x];
    ListStarProper(inner);
    JoinListStar(inner, Nil, ListStar(flat, x));
    ListStarConcat(inner, flat, x);
  }

  lemma {:induction false} JoinProper(a: Val, b: Val)
    requires Proper(a) && Proper(b)
    ensures Proper(Join(a, b))
  {
    if a.Cons? { JoinProper(a.cdr, b); }
  }

  lemma {:induction false} AppendNil(vs: seq<Val>)
    requires AppendValues(vs + [Nil]).Done?
    ensures AppendValues(vs) == AppendValues(vs + [Nil])
  {
    if |vs| == 0 {
    } else if |vs| == 1 {
      assert (vs + [Nil])[1..] == [Nil];
      JoinNil(vs[0]);
    } else {
      assert (vs + [Nil])[1..] == vs[1..] + [Nil];
      AppendNil(vs[1..]);
    }
  }

  /** Append of list forms only is one list form. */
  lemma {:induction false} AppendToList(o: Oracle, args: Val, trace: seq<Val>)
    requires AllListForms(args) && Eval(o, Cons(APPEND, args), trace).Done?
    ensures Eval(o, Cons(LIST, MappendCdr(args)), trace) == Eval(o, Cons(APPEND, args), trace)
  {
    ListFormsFlatten(o, args, trace, Nil);
    AppendNil(EvalArgs(o, args, trace).vs);
  }

  lemma {:induction false} SplitLast(args: Val)
    requires Proper(args) && args.Cons?
    ensures Join(ButLast(args), LastCell(args)) == args && Proper(ButLast(args))
    ensures LastCell(args).Cons? && LastCell(args).cdr.Nil?
  {
    if args.cdr.Cons? { SplitLast(args.cdr); }
  }

  /** Append of list forms and one last argument is a list* form. */
  lemma {:induction false} AppendToListStar(o: Oracle, args: Val, trace: seq<Val>)
    requires AllListForms(ButLast(args)) && args.Cons? && Eval(o, Cons(APPEND, args), trace).Done?
    ensures Eval(o, Cons(LIST_STAR, Join(MappendCdr(ButLast(args)), LastCell(args))), trace)
            == Eval(o, Cons(APPEND, args), trace)
  {
    var bl, last := ButLast(args), LastCell(args);
    EvalArgsProper(o, args, trace);
    SplitLast(args);
    EvalArgsJoin(o, bl, last, trace);
    var r := EvalArgs(o, bl, trace);
    var x := Eval(o, last.car, r.trace);
    LastArg(o, last, r.trace);
    ListFormsFlatten(o, bl, trace, x.v);
    EvalArgsJoin(o, MappendCdr(bl), last, trace);
    var ws := EvalArgs(o, MappendCdr(bl), trace).vs;
    assert (ws + [x.v])[..|ws|] == ws;
  }

  lemma {:induction false} LastArg(o: Oracle, last: Val, trace: seq<Val>)
    requires last.Cons? && last.cdr.Nil? && Eval(o, last.car, trace).Done?
    ensures var x := Eval(o, last.car, trace); EvalArgs(o, last, trace) == Args([x.v], x.trace)
  {
    assert [Eval(o, last.car, trace).v] + [] == [Eval(o, last.car, trace).v];
  }

  lemma {:induction false} OptimizeFormKeeps(o: Oracle, form: Val, trace: seq<Val>)
    requires Eval(o, form, trace).Done?
    ensures Eval(o, OptimizeForm(form), trace) == Eval(o, form, trace)
  {
    if form.Cons? {
      var args := form.cdr;
      if form.car == APPEND {
        if AllListForms(args) {
          AppendToList(o, args, trace);
          OptimizeListKeeps(o, MappendCdr(args), trace);
        } else if AllListForms(ButLast(args)) {
          EvalArgsProper(o, args, trace);
          AppendToListStar(o, args, trace);
        }
      } else if form.car == LIST {
        OptimizeListKeeps(o, args, trace);
      } else if form.car == RCONS && OptimizeForm(form) != form {
        QuotedArgs(o, args, trace);
        TwoQuotes(o, args, trace);
      }
    }
  }

  lemma {:induction false} TwoQuotes(o: Oracle, args: Val, trace: seq<Val>)
    requires args.Cons? && args.cdr.Cons? && args.cdr.cdr.Nil? && AllQuoteForms(args)
    ensures EvalArgs(o, args, trace) == Args([Second(args.car), Second(args.cdr.car)], trace)
  {
    assert IsQuoteForm(args.car) && IsQuoteForm(args.cdr.car);
    assert EvalArgs(o, args.cdr.cdr, trace) == Args([], trace);
    assert EvalArgs(o, args.cdr, trace) == Args([Second(args.cdr.car)] + [], trace);
    assert [Second(args.car)] + [Second(args.cdr.car)] == [Second(args.car), Second(args.cdr.car)];
  }

  lemma {:induction false} XformKeeps(o: Oracle, v: Val, trace: seq<Val>)
    requires Eval(o, v, trace).Done?
    ensures Eval(o, XformListedQuote(v), trace) == Eval(o, v, trace)
  {
    if XformListedQuote(v) != v {
      var q := v.cdr.car;
      assert Eval(o, q, trace).Done?;
      assert EvalArgs(o, v.cdr.cdr, trace) == Args([], trace);
      assert EvalArgs(o, v.cdr, trace) == Args([q.cdr.car] + [], trace);
      assert ListStar([q.cdr.car] + [], Nil) == Cons(q.cdr.car, Nil) by { assert ([q.cdr.car] + [])[1..] == []; }
    }
  }

  lemma {:induction false} MapXformKeeps(o: Oracle, args: Val, trace: seq<Val>)
    requires EvalArgs(o, args, trace).Args?
    ensures EvalArgs(o, MapXform(args), trace) == EvalArgs(o, args, trace)
  {
    if args.Cons? {
      XformKeeps(o, args.car, trace);
      MapXformKeeps(o, args.cdr, Eval(o, args.car, trace).trace);
    }
  }

  /** The optimizer never changes the value of a form that has one, nor which opaque
      forms are evaluated, nor their order. */
  lemma {:induction false} OptimizeKeeps(o: Oracle, form: Val, trace: seq<Val>)
    requires Eval(o, form, trace).Done?
    ensures Eval(o, OptimizeQquote(form), trace) == Eval(o, form, trace)
  {
    OptimizeFormKeeps(o, form, trace);
    var g := OptimizeForm(form);
    if OptimizeArgs(g) != g { MapXformKeeps(o, g.cdr, trace); }
  }

  // ---- Counts are preserved, with no condition ---------------------------------------

  lemma {:induction false} OpaqueJoin(a: Val, b: Val)
    ensures OpaqueArgs(Join(a, b)) == OpaqueArgs(a) + OpaqueArgs(b)
  {
    if a.Cons? { OpaqueJoin(a.cdr, b); }
  }

  lemma {:induction false} OpaqueQuotes(args: Val)
    requires AllQuoteForms(args)
    ensures OpaqueArgs(args) == 0
  {
    if args.Cons? { OpaqueQuotes(args.cdr); }
  }

  lemma {:induction false} OpaqueFlatten(args: Val)
    requires AllListForms(args)
    ensures OpaqueArgs(MappendCdr(args)) == OpaqueArgs(args)
  {
    if args.Cons? {
      OpaqueFlatten(args.cdr);
      OpaqueJoin(args.car.cdr, MappendCdr(args.cdr));
    }
  }

  lemma {:induction false} OpaqueSplit(args: Val)
    ensures OpaqueArgs(ButLast(args)) + OpaqueArgs(LastCell(args)) == OpaqueArgs(args)
  {
    if args.Cons? && args.cdr.Cons? { OpaqueSplit(args.cdr); }
  }

  lemma {:induction false} OpaqueXform(args: Val)
    ensures OpaqueArgs(MapXform(args)) == OpaqueArgs(args)
  {
    if args.Cons? {
      var v := args.car;
      OpaqueXform(args.cdr);
      if XformListedQuote(v) != v {
        assert OpaqueArgs(v.cdr) == Opaque(v.cdr.car) + OpaqueArgs(v.cdr.cdr) == 0;
      }
    }
  }

  lemma {:induction false} OptimizeCounts(form: Val)
    ensures Opaque(OptimizeQquote(form)) == Opaque(form)
  {
    if form.Cons? {
      var args := form.cdr;
      if form.car == APPEND {
        if AllListForms(args) {
          OpaqueFlatten(args);
          if AllQuoteForms(MappendCdr(args)) { OpaqueQuotes(MappendCdr(args)); }
        } else if AllListForms(ButLast(args)) {
          OpaqueSplit(args);
          OpaqueFlatten(ButLast(args));
          OpaqueJoin(MappendCdr(ButLast(args)), LastCell(args));
        }
      } else if AllQuoteForms(args) {
        OpaqueQuotes(args);
      }
      var g := OptimizeForm(form);
      if g.Cons? { OpaqueXform(g.cdr); }
    }
  }
}
