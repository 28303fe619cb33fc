/// The evaluator `lval_eval` / `lval_eval_sexpr` and the dispatch of an
/// `LVAL_FUN` cell to its builtin, as functions from a value and the table of
/// the one `lenv` to a result and the table afterwards. A `fuel` count bounds
/// how deeply S-expressions may nest during evaluation: the C recursion need
/// not terminate, since `eval` can re-enter the evaluator on a value bound by
/// `def`.
module Semantics {
  import opened Values
  import opened Environment
  import opened Builtins

  /** The index of the first error among `cs`, or `|cs|` when there is none:
      the error-checking loop of `lval_eval_sexpr`. */
  function FirstErr(cs: seq<Value>): (k: nat)
    ensures k <= |cs|
    ensures k < |cs| ==> cs[k].Err?
    ensures forall j :: 0 <= j < k ==> !cs[j].Err?
  {
    if cs == [] then 0
    else if cs[0].Err? then 0
    else 1 + FirstErr(cs[1..])
  }

  /** `lval_eval`: a symbol is looked up and leaves the table as it was; an
      S-expression is evaluated by `lval_eval_sexpr`, one level of fuel deeper;
      every other kind of value evaluates to itself. */
  function Eval(t: Table, v: Value, fuel: nat): (r: (Value, Table))
    requires t.Valid()
    ensures r.1.Valid()
    ensures v.Sym? ==> r == (Lookup(t, v.name), t)
    ensures !v.Sym? && !v.SExpr? ==> r == (v, t)
    decreases fuel, 0, 0
  {
    match v
    case Sym(k) => (Lookup(t, k), t)
    case SExpr(cs) =>
      if fuel == 0 then (Err(DEPTH_EXHAUSTED), t)
      else EvalSExpr(t, cs, fuel - 1)
    case _ => (v, t)
  }

  /** The first loop of `lval_eval_sexpr`: every child is evaluated, in index
      order, in the table the previous children left behind. */
  function EvalCells(t: Table, cs: seq<Value>, fuel: nat): (r: (seq<Value>, Table))
    requires t.Valid()
    ensures |r.0| == |cs| && r.1.Valid()
    decreases fuel, 1, |cs|
  {
    if cs == [] then ([], t)
    else
      var front := EvalCells(t, cs[..|cs| - 1], fuel);
      var last := Eval(front.1, cs[|cs| - 1], fuel);
      (front.0 + [last.0], last.1)
  }

  /** `lval_eval_sexpr`: after evaluating the children, the first error among
      them is the result; an empty expression is itself; a single child is
      the result; otherwise the head must be a function, which is applied to
      the remaining children. */
  function EvalSExpr(t: Table, cs: seq<Value>, fuel: nat): (r: (Value, Table))
    requires t.Valid()
    ensures r.1.Valid()
    decreases fuel, 2, 0
  {
    var evaluated := EvalCells(t, cs, fuel);
    var evs := evaluated.0;
    var k := FirstErr(evs);
    if k < |evs| then (evs[k], evaluated.1)
    else if |evs| == 0 then (SExpr([]), evaluated.1)
    else if |evs| == 1 then (evs[0], evaluated.1)
    else if !evs[0].Fun? then (Err(NOT_A_FUNCTION), evaluated.1)
    else Apply(evaluated.1, evs[0].fn, evs[1..], fuel)
  }

  /** The call `f->fun(e, v)` through the `fun` field of an `LVAL_FUN`
      cell. Only `def` and `eval` can change the table. */
  function Apply(t: Table, f: Builtin, args: seq<Value>, fuel: nat): (r: (Value, Table))
    requires t.Valid() && |args| >= 1
    ensures r.1.Valid()
    ensures f != DefFn && f != EvalFn ==> r.1 == t
    decreases fuel, 1, 0
  {
    match f
    case ListFn => (List(args), t)
    case HeadFn => (Head(args), t)
    case TailFn => (Tail(args), t)
    case EvalFn => EvalBuiltin(t, args, fuel)
    case JoinFn => (Join(args), t)
    case ConsFn => (Cons(args), t)
    case InitFn => (Init(args), t)
    case LenFn => (Len(args), t)
    case DefFn => Def(t, args)
    case AddFn => (Arith(Plus, args), t)
    case SubFn => (Arith(Minus, args), t)
    case MulFn => (Arith(Times, args), t)
    case DivFn => (Arith(Divide, args), t)
  }

  /** `builtin_eval`: exactly one Q-expression argument, which is retagged as
      an S-expression and evaluated in the same table. */
  function EvalBuiltin(t: Table, args: seq<Value>, fuel: nat): (r: (Value, Table))
    requires t.Valid()
    ensures r.1.Valid()
    ensures !(|args| == 1 && args[0].QExpr?) ==> r.0.Err? && r.1 == t
    decreases fuel, 0, 1
  {
    if |args| != 1 then (Err("Function 'eval' passed too many arguments!"), t)
    else if !args[0].QExpr? then (Err("Function 'eval' passed incorrect type!"), t)
    else Eval(t, SExpr(args[0].cells), fuel)
  }

  /** A value that evaluates to itself without touching the table: neither a
      symbol nor an S-expression. */
  predicate Inert(v: Value)
  {
    !v.Sym? && !v.SExpr?
  }

  /** Children are evaluated strictly left to right: evaluating `a + b` is
      evaluating `a` and then `b` in the table `a` left behind. */
  lemma {:induction false} EvalCellsAppend(t: Table, a: seq<Value>, b: seq<Value>, fuel: nat)
    requires t.Valid()
    ensures var ra := EvalCells(t, a, fuel);
            var rb := EvalCells(ra.1, b, fuel);
            EvalCells(t, a + b, fuel) == (ra.0 + rb.0, rb.1)
    decreases |b|
  {
    var ra := EvalCells(t, a, fuel);
    if b == [] {
      assert a + b == a && ra.0 + [] == ra.0;
    } else {
      var n := |b| - 1;
      var b' := b[..n];
      assert (a + b)[..|a + b| - 1] == a + b';
      assert (a + b)[|a + b| - 1] == b[n];
      EvalCellsAppend(t, a, b', fuel);
      var rb' := EvalCells(ra.1, b', fuel);
      var last := Eval(rb'.1, b[n], fuel);
      assert EvalCells(ra.1, b, fuel) == (rb'.0 + [last.0], last.1);
      assert ra.0 + rb'.0 + [last.0] == ra.0 + (rb'.0 + [last.0]);
    }
  }

  /** Evaluating one more child of a prefix: the child at index `i` is
      evaluated in the table the first `i` children left behind. */
  lemma EvalCellsStep(t: Table, cs: seq<Value>, i: nat, fuel: nat)
    requires t.Valid() && i < |cs|
    ensures var front := EvalCells(t, cs[..i], fuel);
            var last := Eval(front.1, cs[i], fuel);
            EvalCells(t, cs[..i + 1], fuel) == (front.0 + [last.0], last.1)
  {
    assert cs[..i + 1][..i] == cs[..i];
  }

  /** The head child is evaluated first, in the table as it was. */
  lemma EvalCellsFront(t: Table, c: Value, rest: seq<Value>, fuel: nat)
    requires t.Valid()
    ensures var rc := Eval(t, c, fuel);
            var rr := EvalCells(rc.1, rest, fuel);
            EvalCells(t, [c] + rest, fuel) == ([rc.0] + rr.0, rr.1)
  {
    EvalCellsAppend(t, [c], rest, fuel);
    EvalCellsSingle(t, c, fuel);
  }

  /** A single child is evaluated in the table as it was. */
  lemma EvalCellsSingle(t: Table, c: Value, fuel: nat)
    requires t.Valid()
    ensures EvalCells(t, [c], fuel) == ([Eval(t, c, fuel).0], Eval(t, c, fuel).1)
  {
    assert [c][..0] == [];
    var front := EvalCells(t, [c][..0], fuel);
    assert front == ([], t);
    var last := Eval(t, c, fuel);
    assert EvalCells(t, [c], fuel) == (front.0 + [last.0], last.1);
    assert front.0 + [last.0] == [last.0];
  }

  /** Children that evaluate to themselves come back unchanged, and the table
      with them. */
  lemma {:induction false} EvalCellsInert(t: Table, cs: seq<Value>, fuel: nat)
    requires t.Valid()
    requires forall i :: 0 <= i < |cs| ==> Inert(cs[i])
    ensures EvalCells(t, cs, fuel) == (cs, t)
    decreases |cs|
  {
    if cs != [] {
      var n := |cs| - 1;
      EvalCellsInert(t, cs[..n], fuel);
      assert cs[..n] + [cs[n]] == cs;
    }
  }

  /** The five outcomes of `lval_eval_sexpr`, stated on the evaluated
      children `evs`: the first error wins; `()` is itself; `(x)` is `x`
      evaluated; a head that is not a function is refused; otherwise the
      builtin gets the other children as its arguments. */
  lemma EvalSExprCases(t: Table, cs: seq<Value>, fuel: nat)
    requires t.Valid()
    ensures var evaluated := EvalCells(t, cs, fuel);
            var evs := evaluated.0;
            && (forall i :: 0 <= i < |evs| && evs[i].Err? && (forall j :: 0 <= j < i ==> !evs[j].Err?) ==>
                  EvalSExpr(t, cs, fuel) == (evs[i], evaluated.1))
            && (cs == [] ==> EvalSExpr(t, cs, fuel) == (SExpr([]), t))
            && (|cs| == 1 ==> EvalSExpr(t, cs, fuel) == Eval(t, cs[0], fuel))
            && ((forall i :: 0 <= i < |evs| ==> !evs[i].Err?) && |cs| >= 2 && !evs[0].Fun? ==>
                  EvalSExpr(t, cs, fuel) == (Err(NOT_A_FUNCTION), evaluated.1))
            && ((forall i :: 0 <= i < |evs| ==> !evs[i].Err?) && |cs| >= 2 && evs[0].Fun? ==>
                  EvalSExpr(t, cs, fuel) == Apply(evaluated.1, evs[0].fn, evs[1..], fuel))
  {
    var evaluated := EvalCells(t, cs, fuel);
    var evs := evaluated.0;
    forall i | 0 <= i < |evs| && evs[i].Err? && (forall j :: 0 <= j < i ==> !evs[j].Err?)
      ensures FirstErr(evs) == i
    {
      FirstErrIs(evs, i);
    }
    if |cs| == 1 {
      EvalCellsSingle(t, cs[0], fuel);
      assert cs == [cs[0]];
    }
  }

  /** An error from the head child is the value of the whole expression,
      whatever the other children would have done. */
  lemma HeadErrorWins(t: Table, c: Value, rest: seq<Value>, fuel: nat)
    requires t.Valid() && Eval(t, c, fuel).0.Err?
    ensures EvalSExpr(t, [c] + rest, fuel).0 == Eval(t, c, fuel).0
  {
    var cs := [c] + rest;
    var rc := Eval(t, c, fuel);
    EvalCellsFront(t, c, rest, fuel);
    var evs := EvalCells(t, cs, fuel).0;
    assert evs[0] == rc.0;
    FirstErrIs(evs, 0);
  }

  /** `FirstErr` picks the error no earlier error precedes. */
  lemma {:induction false} FirstErrIs(cs: seq<Value>, i: nat)
    requires i < |cs| && cs[i].Err?
    requires forall j :: 0 <= j < i ==> !cs[j].Err?
    ensures FirstErr(cs) == i
  {
    if i > 0 {
      FirstErrIs(cs[1..], i - 1);
    }
  }

  /** A call whose head symbol is bound to a builtin and whose arguments
      evaluate to themselves, without an error among them, applies the
      builtin to exactly those arguments. */
  lemma CallInert(t: Table, name: string, f: Builtin, args: seq<Value>, fuel: nat)
    requires t.Valid() && Lookup(t, name) == Fun(f)
    requires args != [] && forall i :: 0 <= i < |args| ==> Inert(args[i]) && !args[i].Err?
    ensures Eval(t, SExpr([Sym(name)] + args), fuel + 1) == Apply(t, f, args, fuel)
  {
    var cs := [Sym(name)] + args;
    var evs := [Fun(f)] + args;
    EvalCellsFront(t, Sym(name), args, fuel);
    EvalCellsInert(t, args, fuel);
    assert EvalCells(t, cs, fuel) == (evs, t);
    assert forall i :: 0 <= i < |evs| ==> !evs[i].Err?;
    assert evs[0] == Fun(f) && evs[1..] == args;
    EvalSExprCases(t, cs, fuel);
    assert EvalSExpr(t, cs, fuel) == Apply(t, f, args, fuel);
  }

  /** `(eval {x ...})` evaluates `(x ...)` in the same table, one level of
      nesting deeper, when `eval` is bound to its builtin. */
  lemma EvalQuoted(t: Table, cs: seq<Value>, fuel: nat)
    requires t.Valid() && Lookup(t, "eval") == Fun(EvalFn)
    ensures Eval(t, SExpr([Sym("eval"), QExpr(cs)]), fuel + 1) == Eval(t, SExpr(cs), fuel)
  {
    CallInert(t, "eval", EvalFn, [QExpr(cs)], fuel);
    assert [Sym("eval")] + [QExpr(cs)] == [Sym("eval"), QExpr(cs)];
  }

  /** `(list x ...)` on self-evaluating arguments quotes them, when `list` is
      bound to its builtin. */
  lemma ListQuotes(t: Table, cs: seq<Value>, fuel: nat)
    requires t.Valid() && Lookup(t, "list") == Fun(ListFn)
    requires cs != [] && forall i :: 0 <= i < |cs| ==> Inert(cs[i]) && !cs[i].Err?
    ensures Eval(t, SExpr([Sym("list")] + cs), fuel + 1) == (QExpr(cs), t)
  {
    CallInert(t, "list", ListFn, cs, fuel);
  }

  /** `(def {k} v)` for a self-evaluating `v` returns `()`, after which `k`
      looks up to `v` and every other name to what it did before. */
  lemma DefThenLookup(t: Table, k: string, v: Value, other: string, fuel: nat)
    requires t.Valid() && Lookup(t, "def") == Fun(DefFn)
    requires Inert(v) && !v.Err?
    ensures var r := Eval(t, SExpr([Sym("def"), QExpr([Sym(k)]), v]), fuel + 1);
            && r.0 == SExpr([])
            && Lookup(r.1, k) == v
            && (other != k ==> Lookup(r.1, other) == Lookup(t, other))
  {
    var args := [QExpr([Sym(k)]), v];
    CallInert(t, "def", DefFn, args, fuel);
    assert [Sym("def")] + args == [Sym("def"), QExpr([Sym(k)]), v];
    assert Names([Sym(k)]) == [k] && args[1..] == [v];
    assert Def(t, args) == (SExpr([]), BindAll(t, [k], [v]));
    assert BindAll(t, [k], [v]) == Bind(t, k, v) by {
      assert [k][..0] == [] && [v][..0] == [];
    }
    LookupBind(t, k, v, other);
  }

  /** `(eval f)` with `f` bound to a list `{...}`: the list is retagged as
      an S-expression and evaluated in the same table. */
  lemma EvalOfBoundList(t: Table, ev: string, f: string, body: seq<Value>, fuel: nat)
    requires t.Valid() && Lookup(t, ev) == Fun(EvalFn)
    requires Lookup(t, f) == QExpr(body)
    ensures EvalSExpr(t, [Sym(ev), Sym(f)], fuel) == Eval(t, SExpr(body), fuel)
  {
    var cs := [Sym(ev), Sym(f)];
    EvalCellsFront(t, Sym(ev), [Sym(f)], fuel);
    EvalCellsSingle(t, Sym(f), fuel);
    assert cs == [Sym(ev)] + [Sym(f)];
    var evs := [Fun(EvalFn), QExpr(body)];
    assert [Fun(EvalFn)] + [QExpr(body)] == evs;
    assert EvalCells(t, cs, fuel) == (evs, t);
    EvalSExprCases(t, cs, fuel);
    assert evs[1..] == [QExpr(body)];
    assert EvalSExpr(t, cs, fuel) == Apply(t, EvalFn, [QExpr(body)], fuel);
  }

  /** With `f` bound to `{eval f}` (for `eval` any name bound to the `eval`
      builtin), evaluating `(eval f)` never finishes: whatever the fuel, it
      runs out. */
  lemma {:induction false} SelfEvalDiverges(t: Table, ev: string, f: string, fuel: nat)
    requires t.Valid() && Lookup(t, ev) == Fun(EvalFn)
    requires Lookup(t, f) == QExpr([Sym(ev), Sym(f)])
    ensures Eval(t, SExpr([Sym(ev), Sym(f)]), fuel) == (Err(DEPTH_EXHAUSTED), t)
  {
    if fuel > 0 {
      EvalOfBoundList(t, ev, f, [Sym(ev), Sym(f)], fuel - 1);
      SelfEvalDiverges(t, ev, f, fuel - 1);
    }
  }
  /** An error from the first of two children is the value of the whole
      expression, yet the table is the one the second child leaves: every
      child is evaluated before the error check. */
  lemma EarlierErrorKeepsLaterEffects(t: Table, a: Value, b: Value, fuel: nat)
    requires t.Valid() && Eval(t, a, fuel).0.Err?
    ensures var ra := Eval(t, a, fuel);
            EvalSExpr(t, [a, b], fuel) == (ra.0, Eval(ra.1, b, fuel).1)
  {
    var ra := Eval(t, a, fuel);
    var rb := Eval(ra.1, b, fuel);
    EvalCellsFront(t, a, [b], fuel);
    EvalCellsSingle(ra.1, b, fuel);
    assert [a] + [b] == [a, b];
    var evs := [ra.0, rb.0];
    assert [ra.0] + [rb.0] == evs;
    assert EvalCells(t, [a, b], fuel) == (evs, rb.1);
    FirstErrIs(evs, 0);
  }

  /** `(/ 1 0)` is "Division by Zero!" at any fuel that reaches the call. */
  lemma OneOverZero(t: Table, div: string, fuel: nat)
    requires t.Valid() && Lookup(t, div) == Fun(DivFn)
    ensures Eval(t, SExpr([Sym(div), Num(1), Num(0)]), fuel + 1) == (Err(DIVISION_BY_ZERO), t)
  {
    var args := [Num(1), Num(0)];
    CallInert(t, div, DivFn, args, fuel);
    assert [Sym(div)] + args == [Sym(div), Num(1), Num(0)];
    assert args[1..] == [Num(0)];
    assert Arith(Divide, args) == Fold(Divide, 1, [Num(0)]);
  }

  /** `(+ 1 2)` is `3` at any fuel that reaches the call. */
  lemma OnePlusTwo(t: Table, plus: string, fuel: nat)
    requires t.Valid() && Lookup(t, plus) == Fun(AddFn)
    ensures Eval(t, SExpr([Sym(plus), Num(1), Num(2)]), fuel + 1) == (Num(3), t)
  {
    var args := [Num(1), Num(2)];
    CallInert(t, plus, AddFn, args, fuel);
    assert [Sym(plus)] + args == [Sym(plus), Num(1), Num(2)];
    assert args[1..] == [Num(2)];
    assert Arith(Plus, args) == Fold(Plus, 1, [Num(2)]);
  }

  /** The children of `(def {x} p)`: the builtin, the list as it is, and
      the value of `p` with the table `p` leaves. */
  lemma EvalCellsOfDef(t: Table, def: string, x: string, p: Value, fuel: nat)
    requires t.Valid() && Lookup(t, def) == Fun(DefFn)
    ensures var rp := Eval(t, p, fuel);
            EvalCells(t, [Sym(def), QExpr([Sym(x)]), p], fuel) == ([Fun(DefFn), QExpr([Sym(x)]), rp.0], rp.1)
  {
    var q := QExpr([Sym(x)]);
    var rp := Eval(t, p, fuel);
    EvalCellsInertThen(t, q, p, fuel);
    EvalCellsFront(t, Sym(def), [q, p], fuel);
    assert Eval(t, Sym(def), fuel) == (Fun(DefFn), t);
    assert [Sym(def)] + [q, p] == [Sym(def), q, p];
    assert [Fun(DefFn)] + [q, rp.0] == [Fun(DefFn), q, rp.0];
  }

  /** Two children, the first of which evaluates to itself. */
  lemma EvalCellsInertThen(t: Table, q: Value, p: Value, fuel: nat)
    requires t.Valid() && Inert(q)
    ensures var rp := Eval(t, p, fuel);
            EvalCells(t, [q, p], fuel) == ([q, rp.0], rp.1)
  {
    var rp := Eval(t, p, fuel);
    EvalCellsSingle(t, p, fuel);
    EvalCellsFront(t, q, [p], fuel);
    assert [q] + [p] == [q, p];
    assert [q] + [rp.0] == [q, rp.0];
  }

  /** `(def {x} p)` with a nested S-expression `p` and one level of fuel:
      `p` runs out, so nothing is bound. */
  lemma DefStarved(t: Table, def: string, x: string, p: Value)
    requires t.Valid() && Lookup(t, def) == Fun(DefFn) && p.SExpr?
    ensures Eval(t, SExpr([Sym(def), QExpr([Sym(x)]), p]), 1) == (Err(DEPTH_EXHAUSTED), t)
  {
    var evs := [Fun(DefFn), QExpr([Sym(x)]), Err(DEPTH_EXHAUSTED)];
    EvalCellsOfDef(t, def, x, p, 0);
    FirstErrIs(evs, 2);
  }

  /** `(def {x} p)` where `p` evaluates to a value `v` that is not an error,
      without touching the table: `x` is bound to `v`. */
  lemma DefFed(t: Table, def: string, x: string, p: Value, v: Value, fuel: nat)
    requires t.Valid() && Lookup(t, def) == Fun(DefFn)
    requires Eval(t, p, fuel) == (v, t) && !v.Err?
    ensures Eval(t, SExpr([Sym(def), QExpr([Sym(x)]), p]), fuel + 1) == (SExpr([]), Bind(t, x, v))
  {
    var q := QExpr([Sym(x)]);
    var cs := [Sym(def), q, p];
    var evs := [Fun(DefFn), q, v];
    EvalCellsOfDef(t, def, x, p, fuel);
    assert forall i :: 0 <= i < |evs| ==> !evs[i].Err?;
    EvalSExprCases(t, cs, fuel);
    assert evs[1..] == [q, v];
    assert EvalSExpr(t, cs, fuel) == Def(t, [q, v]);
    assert Names([Sym(x)]) == [x] && [q, v][1..] == [v];
    assert BindAll(t, [x], [v]) == Bind(t, x, v) by {
      assert [x][..0] == [] && [v][..0] == [];
    }
  }

  /** Running out of fuel inside a later child can be hidden by an earlier
      child's error: `((/ 1 0) (def {x} (+ 1 2)))` is "Division by Zero!"
      at every fuel that reaches the division, as in the C program; but only
      from three levels of fuel up is `x` bound to `3`, as the C program
      binds it. With two, the table is left as it was. */
  lemma ExhaustionHiddenByEarlierError(t: Table, n: nat)
    requires t.Valid() && Lookup(t, "/") == Fun(DivFn)
    requires Lookup(t, "def") == Fun(DefFn) && Lookup(t, "+") == Fun(AddFn)
    ensures var e := SExpr([SExpr([Sym("/"), Num(1), Num(0)]),
                            SExpr([Sym("def"), QExpr([Sym("x")]), SExpr([Sym("+"), Num(1), Num(2)])])]);
            var r := Eval(t, e, n + 2);
            && r.0 == Err(DIVISION_BY_ZERO)
            && (n == 0 ==> r.1 == t)
            && (n > 0 ==> r.1 == Bind(t, "x", Num(3)))
  {
    HiddenExhaustion(t, "/", "def", "+", "x", n);
  }

  /** `ExhaustionHiddenByEarlierError` for any names bound to `/`, `def`
      and `+`, and any name defined. */
  lemma HiddenExhaustion(t: Table, div: string, def: string, plus: string, x: string, n: nat)
    requires t.Valid() && Lookup(t, div) == Fun(DivFn)
    requires Lookup(t, def) == Fun(DefFn) && Lookup(t, plus) == Fun(AddFn)
    ensures var e := SExpr([SExpr([Sym(div), Num(1), Num(0)]),
                            SExpr([Sym(def), QExpr([Sym(x)]), SExpr([Sym(plus), Num(1), Num(2)])])]);
            var r := Eval(t, e, n + 2);
            && r.0 == Err(DIVISION_BY_ZERO)
            && (n == 0 ==> r.1 == t)
            && (n > 0 ==> r.1 == Bind(t, x, Num(3)))
  {
    var d := SExpr([Sym(div), Num(1), Num(0)]);
    var p := SExpr([Sym(plus), Num(1), Num(2)]);
    var b := SExpr([Sym(def), QExpr([Sym(x)]), p]);
    OneOverZero(t, div, n);
    EarlierErrorKeepsLaterEffects(t, d, b, n + 1);
    if n == 0 {
      DefStarved(t, def, x, p);
    } else {
      OnePlusTwo(t, plus, n - 1);
      DefFed(t, def, x, p, Num(3), n);
    }
  }
}
