/// The evaluator as the C code runs it: the environment is the `Env` object
/// that `def` updates in place, and the S-expression being evaluated is an
/// `Expr` container whose cells are overwritten, popped and retagged. Each
/// method is proved to compute what the corresponding function of
/// `Semantics` or `Builtins` specifies.
module Interp {
  import opened Values
  import opened Environment
  import opened Cells
  import opened Builtins
  import Semantics

  /** `lval_eval` on a child cell. An S-expression child is laid out as a
      container before `lval_eval_sexpr` works on it in place. */
  method Eval(e: Env, v: Value, fuel: nat) returns (r: Value)
    requires e.Valid()
    modifies e
    ensures e.Valid()
    ensures (r, e.Model()) == Semantics.Eval(old(e.Model()), v, fuel)
    decreases fuel, 0, 2
  {
    if v.Sym? {
      r := e.Get(v.name);
    } else if v.SExpr? {
      var x := new Expr.FromCells(STag, v.cells);
      r := EvalExpr(e, x, fuel);
    } else {
      r := v;
    }
  }

  /** `lval_eval` on a container: an S-expression is evaluated one level
      deeper, a Q-expression is returned as it is. Both callers, `Eval` and
      `BuiltinEval`, pass an S-expression container; the Q-expression branch
      keeps the method total over containers, as `lval_eval` is. */
  method EvalExpr(e: Env, x: Expr, fuel: nat) returns (r: Value)
    requires e.Valid() && x.Valid()
    modifies e, x, x.cell
    ensures e.Valid()
    ensures (r, e.Model()) == Semantics.Eval(old(e.Model()), old(x.AsValue()), fuel)
    decreases fuel, 0, 1
  {
    if x.tag == STag {
      if fuel == 0 {
        r := Err(DEPTH_EXHAUSTED);
      } else {
        r := EvalSExpr(e, x, fuel - 1);
      }
    } else {
      r := x.AsValue();
    }
  }

  /** `lval_eval_sexpr`: overwrites each cell with its value, left to right,
      then takes the first error, collapses `()` and `(x)`, pops the head and
      calls it on what is left. */
  method EvalSExpr(e: Env, v: Expr, fuel: nat) returns (r: Value)
    requires e.Valid() && v.Valid() && v.tag == STag
    modifies e, v, v.cell
    ensures e.Valid()
    ensures (r, e.Model()) == Semantics.EvalSExpr(old(e.Model()), old(v.Contents()), fuel)
    decreases fuel, 2, 0
  {
    EvalCells(e, v, fuel);
    ghost var evs := v.Contents();
    var k := FirstErr(v);
    if k < v.count {
      r := v.Take(k);
      return;
    }
    if v.count == 0 {
      r := v.AsValue();
      return;
    }
    if v.count == 1 {
      r := v.Take(0);
      return;
    }
    var f := v.Pop(0);
    assert evs[..0] + evs[1..] == evs[1..];
    if !f.Fun? {
      r := Err(NOT_A_FUNCTION);
      return;
    }
    r := Call(e, f.fn, v, fuel);
  }

  /** The first loop of `lval_eval_sexpr`: each cell, left to right, is
      overwritten with its value. */
  method EvalCells(e: Env, v: Expr, fuel: nat)
    requires e.Valid() && v.Valid() && v.tag == STag
    modifies e, v.cell
    ensures e.Valid() && v.Valid() && v.tag == STag && v.cell == old(v.cell) && v.count == old(v.count)
    ensures (v.Contents(), e.Model()) == Semantics.EvalCells(old(e.Model()), old(v.Contents()), fuel)
    decreases fuel, 1, 1
  {
    ghost var t0 := e.Model();
    ghost var cs := v.Contents();
    for i := 0 to v.count
      invariant e.Valid() && v.Valid()
      invariant (v.cell[..i], e.Model()) == Semantics.EvalCells(t0, cs[..i], fuel)
      invariant v.cell[i..v.count] == cs[i..]
    {
      ghost var before := v.cell[..i];
      assert v.cell[i] == cs[i];
      var x := Eval(e, v.cell[i], fuel);
      v.cell[i] := x;
      Semantics.EvalCellsStep(t0, cs, i, fuel);
      assert v.cell[..i + 1] == before + [x];
      assert v.cell[i + 1..v.count] == cs[i + 1..];
    }
    assert cs[..|cs|] == cs;
  }

  /** The second loop of `lval_eval_sexpr`: the index of the first error
      cell, or the cell count when there is none. */
  method FirstErr(v: Expr) returns (k: nat)
    requires v.Valid()
    ensures k == Semantics.FirstErr(v.Contents())
  {
    k := 0;
    while k < v.count && !v.cell[k].Err?
      invariant k <= v.count
      invariant forall j :: 0 <= j < k ==> !v.cell[j].Err?
    {
      k := k + 1;
    }
    if k < v.count {
      Semantics.FirstErrIs(v.Contents(), k);
    }
  }

  /** `f->fun(e, v)`: the builtin behind an `LVAL_FUN` cell, called on the
      container holding its arguments. */
  method Call(e: Env, f: Builtin, a: Expr, fuel: nat) returns (r: Value)
    requires e.Valid() && a.Valid() && a.count >= 1
    modifies e, a, a.cell
    ensures e.Valid()
    ensures (r, e.Model()) == Semantics.Apply(old(e.Model()), f, old(a.Contents()), fuel)
    decreases fuel, 1, 0
  {
    match f
    case ListFn => r := BuiltinList(a);
    case HeadFn => r := BuiltinHead(a);
    case TailFn => r := BuiltinTail(a);
    case EvalFn => r := BuiltinEval(e, a, fuel);
    case JoinFn => r := BuiltinJoin(a);
    case ConsFn => r := BuiltinCons(a);
    case InitFn => r := BuiltinInit(a);
    case LenFn => r := BuiltinLen(a);
    case DefFn => r := BuiltinDef(e, a);
    case AddFn => r := BuiltinOp(a, Plus);
    case SubFn => r := BuiltinOp(a, Minus);
    case MulFn => r := BuiltinOp(a, Times);
    case DivFn => r := BuiltinOp(a, Divide);
  }

  /** `builtin_op`: checks that every argument is a number, pops the first
      as the accumulator, negates it for a lone `-`, then pops and combines
      the others one by one, stopping at a zero divisor. */
  method BuiltinOp(a: Expr, op: Op) returns (r: Value)
    requires a.Valid() && a.count >= 1
    modifies a, a.cell
    ensures r == Arith(op, old(a.Contents()))
  {
    var ok := AllNumbers(a);
    if !ok {
      return Err(NON_NUMBER);
    }
    ghost var args := a.Contents();
    var x := a.Pop(0);
    var acc := x.n;
    if op == Minus && a.count == 0 {
      acc := -acc;
    }
    assert args[..0] + args[1..] == args[1..];
    r := FoldRest(a, op, acc);
  }

  /** The argument check of `builtin_op`: every argument is a number. */
  method AllNumbers(a: Expr) returns (ok: bool)
    requires a.Valid()
    ensures ok <==> AllNums(a.Contents())
  {
    for i := 0 to a.count
      invariant forall j :: 0 <= j < i ==> a.cell[j].Num?
    {
      if !a.cell[i].Num? {
        return false;
      }
    }
    return true;
  }

  /** The loop of `builtin_op`: pops the remaining arguments front first and
      combines each with the accumulator, stopping at a zero divisor. */
  method FoldRest(a: Expr, op: Op, acc0: int) returns (r: Value)
    requires a.Valid() && AllNums(a.Contents())
    modifies a, a.cell
    ensures r == Fold(op, acc0, old(a.Contents()))
  {
    var acc := acc0;
    while a.count > 0
      invariant a.Valid() && a.cell == old(a.cell) && AllNums(a.Contents())
      invariant Fold(op, acc, a.Contents()) == Fold(op, acc0, old(a.Contents()))
      decreases a.count
    {
      ghost var rest, prev := a.Contents(), acc;
      var y := a.Pop(0);
      assert rest[..0] + rest[1..] == rest[1..];
      assert y == rest[0] && a.Contents() == rest[1..];
      if op == Plus {
        acc := acc + y.n;
      }
      if op == Minus {
        acc := acc - y.n;
      }
      if op == Times {
        acc := acc * y.n;
      }
      if op == Divide {
        if y.n == 0 {
          return Err(DIVISION_BY_ZERO);
        }
        acc := CDiv(acc, y.n);
      }
      if op == Modulo {
        if y.n == 0 {
          return Err(DIVISION_BY_ZERO);
        }
        acc := CMod(acc, y.n);
      }
      assert acc == Combine(op, prev, y.n);
    }
    r := Num(acc);
  }

  /** `builtin_head`: takes the list out of the argument container and pops
      every element after the first. */
  method BuiltinHead(a: Expr) returns (r: Value)
    requires a.Valid()
    modifies a, a.cell
    ensures r == Head(old(a.Contents()))
  {
    if a.count != 1 {
      return Err("Function 'head' passed too many arguments!");
    }
    if !a.cell[0].QExpr? {
      return Err("Function 'head' passed incorrect type!");
    }
    if |a.cell[0].cells| == 0 {
      return Err("Function 'head' passed {}!");
    }
    var q := a.Take(0);
    var v := new Expr.FromCells(QTag, q.cells);
    var n := |q.cells|;
    while v.count > 1
      invariant v.Valid() && v.tag == QTag && fresh(v.cell) && 1 <= v.count <= n
      invariant v.Contents() == [q.cells[0]] + q.cells[n - v.count + 1..]
      decreases v.count
    {
      ghost var old_cells := v.Contents();
      var dropped := v.Pop(1);
      assert old_cells[..1] == [q.cells[0]];
      assert old_cells[2..] == q.cells[n - v.count + 1..];
    }
    r := v.AsValue();
  }

  /** `builtin_tail`: takes the list out and pops its first element. */
  method BuiltinTail(a: Expr) returns (r: Value)
    requires a.Valid()
    modifies a, a.cell
    ensures r == Tail(old(a.Contents()))
  {
    if a.count != 1 {
      return Err("Function 'tail' passed too many arguments!");
    }
    if !a.cell[0].QExpr? {
      return Err("Function 'tail' passed incorrect type!");
    }
    if |a.cell[0].cells| == 0 {
      return Err("Function 'tail' passed {}!");
    }
    var q := a.Take(0);
    var v := new Expr.FromCells(QTag, q.cells);
    var dropped := v.Pop(0);
    assert q.cells[..0] + q.cells[1..] == q.cells[1..];
    r := v.AsValue();
  }

  /** `builtin_init`: takes the list out and pops its last element. */
  method BuiltinInit(a: Expr) returns (r: Value)
    requires a.Valid()
    modifies a, a.cell
    ensures r == Init(old(a.Contents()))
  {
    if a.count != 1 {
      return Err("Function 'init' passed too many arguments!");
    }
    if !a.cell[0].QExpr? {
      return Err("Function 'init' passed incorrect type!");
    }
    if |a.cell[0].cells| == 0 {
      return Err("Function 'init' passed {}!");
    }
    var q := a.Take(0);
    var v := new Expr.FromCells(QTag, q.cells);
    var dropped := v.Pop(v.count - 1);
    assert q.cells[..|q.cells| - 1] + q.cells[|q.cells|..] == q.cells[..|q.cells| - 1];
    r := v.AsValue();
  }

  /** `builtin_len`: the element count of the one list argument. */
  method BuiltinLen(a: Expr) returns (r: Value)
    requires a.Valid()
    ensures r == Len(a.Contents())
  {
    if a.count != 1 {
      return Err("Function 'len' passed too many arguments!");
    }
    if !a.cell[0].QExpr? {
      return Err("Function 'len' passed incorrect type!");
    }
    r := Num(|a.cell[0].cells|);
  }

  /** `builtin_cons`: pops the list, takes the element and adds it in
      front. */
  method BuiltinCons(a: Expr) returns (r: Value)
    requires a.Valid()
    modifies a, a.cell
    ensures r == Cons(old(a.Contents()))
  {
    if a.count != 2 {
      return Err("Function 'cons' should pass two arguments!");
    }
    if !a.cell[1].QExpr? {
      return Err("Function 'cons' passed incorrect type!");
    }
    ghost var args := a.Contents();
    var q := a.Pop(1);
    var x := new Expr.FromCells(QTag, q.cells);
    var y := a.Take(0);
    x.AddFront(y);
    r := x.AsValue();
  }

  /** `builtin_list`: retags the argument container as a Q-expression. */
  method BuiltinList(a: Expr) returns (r: Value)
    requires a.Valid()
    modifies a
    ensures r == List(old(a.Contents()))
  {
    a.tag := QTag;
    r := a.AsValue();
  }

  /** `builtin_join`: checks that every argument is a list, pops the first
      and moves the elements of each following one onto its end. */
  method BuiltinJoin(a: Expr) returns (r: Value)
    requires a.Valid() && a.count >= 1
    modifies a, a.cell
    ensures r == Join(old(a.Contents()))
  {
    var ok := AllLists(a);
    if !ok {
      return Err("Function 'join' passed incorrect type.");
    }
    ghost var args := a.Contents();
    var q := a.Pop(0);
    assert args[..0] + args[1..] == args[1..];
    var x := new Expr.FromCells(QTag, q.cells);
    JoinRest(x, a);
    assert Concat(args) == q.cells + Concat(args[1..]);
    r := x.AsValue();
  }

  /** The argument check of `builtin_join`: every argument is a
      Q-expression. */
  method AllLists(a: Expr) returns (ok: bool)
    requires a.Valid()
    ensures ok <==> AllQExprs(a.Contents())
  {
    for i := 0 to a.count
      invariant forall j :: 0 <= j < i ==> a.cell[j].QExpr?
    {
      if !a.cell[i].QExpr? {
        return false;
      }
    }
    return true;
  }

  /** The loop of `builtin_join`: joins the remaining arguments, front
      first, onto `x`, leaving `a` empty. */
  method JoinRest(x: Expr, a: Expr)
    requires x.Valid() && a.Valid() && x != a && x.cell != a.cell
    requires AllQExprs(a.Contents())
    modifies x, x.cell, a, a.cell
    ensures x.Valid() && x.tag == old(x.tag) && (x.cell == old(x.cell) || fresh(x.cell))
    ensures a.Valid() && a.count == 0
    ensures x.Contents() == old(x.Contents()) + Concat(old(a.Contents()))
  {
    ghost var total := old(x.Contents()) + Concat(a.Contents());
    while a.count > 0
      invariant a.Valid() && a.cell == old(a.cell) && AllQExprs(a.Contents())
      invariant x.Valid() && x.tag == old(x.tag) && (x.cell == old(x.cell) || fresh(x.cell))
      invariant x.Contents() + Concat(a.Contents()) == total
      decreases a.count
    {
      ghost var front, rest := x.Contents(), a.Contents();
      var q := a.Pop(0);
      assert rest[..0] + rest[1..] == rest[1..];
      assert a.Contents() == rest[1..] && q == rest[0];
      JoinList(x, q);
      assert a.Contents() == rest[1..];
      assert Concat(rest) == q.cells + Concat(rest[1..]);
      AppendAssoc(front, q.cells, Concat(rest[1..]));
    }
    assert a.Contents() == [];
  }

  lemma AppendAssoc(s: seq<Value>, t: seq<Value>, u: seq<Value>)
    ensures (s + t) + u == s + (t + u)
  {
  }

  /** `lval_join(x, y)` for the popped list `y`: its elements go onto the
      end of `x`. */
  method JoinList(x: Expr, q: Value)
    requires x.Valid() && q.QExpr?
    modifies x, x.cell
    ensures x.Valid() && x.tag == old(x.tag) && (x.cell == old(x.cell) || fresh(x.cell))
    ensures x.Contents() == old(x.Contents()) + q.cells
  {
    var y := new Expr.FromCells(QTag, q.cells);
    x.Join(y);
  }

  /** `builtin_def`: checks the symbol list and the number of values, then
      puts each symbol with its value into the environment, in order. */
  method BuiltinDef(e: Env, a: Expr) returns (r: Value)
    requires e.Valid() && a.Valid() && a.count >= 1
    modifies e
    ensures e.Valid()
    ensures (r, e.Model()) == Def(old(e.Model()), a.Contents())
  {
    if !a.cell[0].QExpr? {
      return Err("Function 'def' passed incorrect type!");
    }
    var syms := a.cell[0].cells;
    for i := 0 to |syms|
      invariant forall j :: 0 <= j < i ==> syms[j].Sym?
    {
      if !syms[i].Sym? {
        return Err("Function 'def' cannot define non-symbol!");
      }
    }
    if |syms| != a.count - 1 {
      return Err("Function 'def' cannot define incorrect number of values to symbols!");
    }
    ghost var t0 := e.Model();
    ghost var ks := Names(syms);
    ghost var vs := a.Contents()[1..];
    for i := 0 to |syms|
      invariant e.Valid()
      invariant e.Model() == BindAll(t0, ks[..i], vs[..i])
    {
      BindAllSnoc(t0, ks, vs, i);
      e.Put(syms[i].name, a.cell[i + 1]);
    }
    assert ks[..|syms|] == ks && vs[..|syms|] == vs;
    r := SExpr([]);
  }

  /** `builtin_eval`: takes the list out of the argument container, retags
      it as an S-expression and evaluates it in the same environment. */
  method BuiltinEval(e: Env, a: Expr, fuel: nat) returns (r: Value)
    requires e.Valid() && a.Valid()
    modifies e, a, a.cell
    ensures e.Valid()
    ensures (r, e.Model()) == Semantics.EvalBuiltin(old(e.Model()), old(a.Contents()), fuel)
    decreases fuel, 0, 2
  {
    if a.count != 1 {
      return Err("Function 'eval' passed too many arguments!");
    }
    if !a.cell[0].QExpr? {
      return Err("Function 'eval' passed incorrect type!");
    }
    var q := a.Take(0);
    var x := new Expr.FromCells(QTag, q.cells);
    x.tag := STag;
    r := EvalExpr(e, x, fuel);
  }

  /** `lenv_add_builtin`: binds the name of `f` to the function value of
      `f`. As the registration with index `n`, it extends the first `n`
      registrations made on the table `t0` by one. */
  method AddBuiltin(e: Env, f: Builtin, ghost t0: Table, ghost n: nat)
    requires e.Valid() && t0.Valid() && n < REGISTRATIONS && f == BuiltinAt(n)
    requires e.Model() == Registered(t0, n)
    modifies e
    ensures e.Valid() && e.Model() == Registered(t0, n + 1)
  {
    e.Put(BuiltinName(f), Fun(f));
  }

  /** `lenv_add_builtins`: the list functions, then the mathematical
      functions, one `lenv_add_builtin` call each. */
  method AddBuiltins(e: Env)
    requires e.Valid()
    modifies e
    ensures e.Valid() && e.Model() == Registered(old(e.Model()), REGISTRATIONS)
  {
    ghost var t0 := e.Model();
    AddBuiltin(e, ListFn, t0, 0);
    AddBuiltin(e, HeadFn, t0, 1);
    AddBuiltin(e, TailFn, t0, 2);
    AddBuiltin(e, EvalFn, t0, 3);
    AddBuiltin(e, JoinFn, t0, 4);
    AddBuiltin(e, ConsFn, t0, 5);
    AddBuiltin(e, InitFn, t0, 6);
    AddBuiltin(e, LenFn, t0, 7);
    AddBuiltin(e, DefFn, t0, 8);

    AddBuiltin(e, AddFn, t0, 9);
    AddBuiltin(e, SubFn, t0, 10);
    AddBuiltin(e, MulFn, t0, 11);
    AddBuiltin(e, DivFn, t0, 12);
  }

  /** The environment `main` evaluates every input line in: a new `lenv`
      with the builtins added. */
  method NewRoot() returns (e: Env)
    ensures e.Valid() && e.Model() == Root()
  {
    e := new Env();
    AddBuiltins(e);
  }
}
