/// Already-read input values, evaluated in any environment where the names
/// they use are bound as `lenv_add_builtins` binds them (the root
/// environment of `main` is one, by `Builtins.RootLookup`): each lemma
/// states the resulting value and the environment left behind. All but
/// `ModuloUnbound` are lines the reader accepts at the prompt.
module Scenarios {
  import opened Values
  import opened Environment
  import opened Builtins
  import opened Semantics

  /** `+ 1 2 3` is `6`. */
  lemma SumOfThree(t: Table)
    requires t.Valid() && Lookup(t, "+") == Fun(AddFn)
    ensures Eval(t, SExpr([Sym("+"), Num(1), Num(2), Num(3)]), 1) == (Num(6), t)
  {
    var args := [Num(1), Num(2), Num(3)];
    CallInert(t, "+", AddFn, args, 0);
    assert [Sym("+")] + args == [Sym("+"), Num(1), Num(2), Num(3)];
    SumOneTwoThree();
  }

  lemma SumOneTwoThree()
    ensures Arith(Plus, [Num(1), Num(2), Num(3)]) == Num(6)
  {
    var args := [Num(1), Num(2), Num(3)];
    assert args[1..] == [Num(2), Num(3)];
    assert [Num(2), Num(3)][1..] == [Num(3)];
    assert Fold(Plus, 1, [Num(2), Num(3)]) == Fold(Plus, 3, [Num(3)]);
  }

  /** `- 5` negates its single argument. */
  lemma NegateOne(t: Table)
    requires t.Valid() && Lookup(t, "-") == Fun(SubFn)
    ensures Eval(t, SExpr([Sym("-"), Num(5)]), 1) == (Num(-5), t)
  {
    CallInert(t, "-", SubFn, [Num(5)], 0);
    assert [Sym("-")] + [Num(5)] == [Sym("-"), Num(5)];
  }

  /** `/ -7 2` is `-3`: the quotient is truncated toward zero, as C's `/`
      on `long` does. */
  lemma DivideTruncates(t: Table)
    requires t.Valid() && Lookup(t, "/") == Fun(DivFn)
    ensures Eval(t, SExpr([Sym("/"), Num(-7), Num(2)]), 1) == (Num(-3), t)
  {
    var args := [Num(-7), Num(2)];
    CallInert(t, "/", DivFn, args, 0);
    assert [Sym("/")] + args == [Sym("/"), Num(-7), Num(2)];
    assert args[1..] == [Num(2)];
    assert Arith(Divide, args) == Fold(Divide, -7, [Num(2)]);
    assert CDiv(-7, 2) == -3;
    assert Fold(Divide, -7, [Num(2)]) == Fold(Divide, -3, []);
  }

  /** `/ 10 0` is the "Division by Zero!" error. */
  lemma DivideByZero(t: Table)
    requires t.Valid() && Lookup(t, "/") == Fun(DivFn)
    ensures Eval(t, SExpr([Sym("/"), Num(10), Num(0)]), 1) == (Err(DIVISION_BY_ZERO), t)
  {
    var args := [Num(10), Num(0)];
    CallInert(t, "/", DivFn, args, 0);
    assert [Sym("/")] + args == [Sym("/"), Num(10), Num(0)];
    TenOverZero();
  }

  lemma TenOverZero()
    ensures Arith(Divide, [Num(10), Num(0)]) == Err(DIVISION_BY_ZERO)
  {
    assert [Num(10), Num(0)][1..] == [Num(0)];
  }

  /** `head {1 2 3}` is `{1}`. */
  lemma HeadOfList(t: Table)
    requires t.Valid() && Lookup(t, "head") == Fun(HeadFn)
    ensures Eval(t, SExpr([Sym("head"), QExpr([Num(1), Num(2), Num(3)])]), 1) == (QExpr([Num(1)]), t)
  {
    var q := QExpr([Num(1), Num(2), Num(3)]);
    CallInert(t, "head", HeadFn, [q], 0);
    assert [Sym("head")] + [q] == [Sym("head"), q];
  }

  /** `tail {1 2 3}` is `{2 3}`. */
  lemma TailOfList(t: Table)
    requires t.Valid() && Lookup(t, "tail") == Fun(TailFn)
    ensures Eval(t, SExpr([Sym("tail"), QExpr([Num(1), Num(2), Num(3)])]), 1) == (QExpr([Num(2), Num(3)]), t)
  {
    var q := QExpr([Num(1), Num(2), Num(3)]);
    CallInert(t, "tail", TailFn, [q], 0);
    assert [Sym("tail")] + [q] == [Sym("tail"), q];
    assert q.cells[1..] == [Num(2), Num(3)];
  }

  /** `head 5` is refused: the argument is not a Q-expression. */
  lemma HeadOfNumber(t: Table)
    requires t.Valid() && Lookup(t, "head") == Fun(HeadFn)
    ensures Eval(t, SExpr([Sym("head"), Num(5)]), 1) == (Err("Function 'head' passed incorrect type!"), t)
  {
    CallInert(t, "head", HeadFn, [Num(5)], 0);
    assert [Sym("head")] + [Num(5)] == [Sym("head"), Num(5)];
  }

  /** `def {x} 5` prints `()`; afterwards `x` evaluates to `5`. */
  lemma DefineThenUse(t: Table)
    requires t.Valid() && Lookup(t, "def") == Fun(DefFn)
    ensures var r := Eval(t, SExpr([Sym("def"), QExpr([Sym("x")]), Num(5)]), 1);
            && r.0 == SExpr([])
            && Eval(r.1, Sym("x"), 0) == (Num(5), r.1)
  {
    DefThenLookup(t, "x", Num(5), "x", 0);
  }

  /** The value `(% 7 2)` evaluates to the "unbound symbol!" error when `%`
      is not bound, as in the root environment: `builtin_op` handles `%`, but
      `lenv_add_builtins` never registers it. The reader's grammar has no
      `%` either, so this value cannot come from a line typed at the
      prompt. */
  lemma ModuloUnbound(t: Table)
    requires t.Valid() && Lookup(t, "%") == Err(UNBOUND_SYMBOL)
    ensures Eval(t, SExpr([Sym("%"), Num(7), Num(2)]), 1) == (Err(UNBOUND_SYMBOL), t)
  {
    HeadErrorWins(t, Sym("%"), [Num(7), Num(2)], 0);
    assert [Sym("%")] + [Num(7), Num(2)] == [Sym("%"), Num(7), Num(2)];
    EvalCellsFront(t, Sym("%"), [Num(7), Num(2)], 0);
    EvalCellsInert(t, [Num(7), Num(2)], 0);
  }
}
