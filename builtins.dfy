/// What each builtin computes from its already evaluated arguments, stated on
/// values: `builtin_op` and the list builtins, `builtin_def`, and the
/// registration table of `lenv_add_builtins`. The evaluator applies them;
/// `eval` is given with the evaluator because it evaluates.
module Builtins {
  import opened Values
  import opened Environment

  predicate AllNums(cs: seq<Value>)
  {
    forall i :: 0 <= i < |cs| ==> cs[i].Num?
  }

  predicate AllQExprs(cs: seq<Value>)
  {
    forall i :: 0 <= i < |cs| ==> cs[i].QExpr?
  }

  /** One step of the loop of `builtin_op`, for a divisor that is not zero. */
  function Combine(op: Op, x: int, y: int): int
    requires (op == Divide || op == Modulo) ==> y != 0
  {
    match op
    case Plus => x + y
    case Minus => x - y
    case Times => x * y
    case Divide => CDiv(x, y)
    case Modulo => CMod(x, y)
  }

  /** The loop of `builtin_op`: folds the numbers `ys` into the accumulator
      `x` from left to right, stopping with "Division by Zero!" at the first
      zero divisor of `/` or `%`. */
  function Fold(op: Op, x: int, ys: seq<Value>): (r: Value)
    requires AllNums(ys)
    ensures r.Num? || r == Err(DIVISION_BY_ZERO)
    decreases |ys|
  {
    if ys == [] then Num(x)
    else if (op == Divide || op == Modulo) && ys[0].n == 0 then Err(DIVISION_BY_ZERO)
    else Fold(op, Combine(op, x, ys[0].n), ys[1..])
  }

  /** `builtin_op`: every argument must be a number; `-` with a single
      argument negates it; otherwise the first argument is folded with the
      rest. The evaluator always passes at least one argument. */
  function Arith(op: Op, args: seq<Value>): (r: Value)
    requires |args| >= 1
    ensures r.Num? || r == Err(NON_NUMBER) || r == Err(DIVISION_BY_ZERO)
    ensures |args| == 1 && op != Minus && args[0].Num? ==> r == args[0]
  {
    if !AllNums(args) then Err(NON_NUMBER)
    else
      var x := if op == Minus && |args| == 1 then -args[0].n else args[0].n;
      Fold(op, x, args[1..])
  }

  /** The sum of a list of numbers, from the right: a reference definition
      independent of the left-to-right loop. */
  function Sum(ns: seq<Value>): int
    requires AllNums(ns)
  {
    if ns == [] then 0 else ns[0].n + Sum(ns[1..])
  }

  function Product(ns: seq<Value>): int
    requires AllNums(ns)
  {
    if ns == [] then 1 else ns[0].n * Product(ns[1..])
  }

  /** `builtin_op` refuses exactly the argument lists holding a non-number;
      arithmetic never produces that error otherwise. */
  lemma ArithNonNumber(op: Op, args: seq<Value>)
    requires |args| >= 1
    ensures Arith(op, args) == Err(NON_NUMBER) <==> !AllNums(args)
    ensures AllNums(args) ==> Arith(op, args).Num? || Arith(op, args) == Err(DIVISION_BY_ZERO)
  {
  }

  lemma {:induction false} FoldPlus(x: int, ys: seq<Value>)
    requires AllNums(ys)
    ensures Fold(Plus, x, ys) == Num(x + Sum(ys))
    decreases |ys|
  {
    if ys != [] {
      FoldPlus(x + ys[0].n, ys[1..]);
    }
  }

  lemma {:induction false} FoldMinus(x: int, ys: seq<Value>)
    requires AllNums(ys)
    ensures Fold(Minus, x, ys) == Num(x - Sum(ys))
    decreases |ys|
  {
    if ys != [] {
      FoldMinus(x - ys[0].n, ys[1..]);
    }
  }

  lemma {:induction false} FoldTimes(x: int, ys: seq<Value>)
    requires AllNums(ys)
    ensures Fold(Times, x, ys) == Num(x * Product(ys))
    decreases |ys|
  {
    if ys != [] {
      FoldTimes(x * ys[0].n, ys[1..]);
      assert x * ys[0].n * Product(ys[1..]) == x * (ys[0].n * Product(ys[1..]));
    }
  }

  /** `+` adds all its arguments. */
  lemma ArithSum(args: seq<Value>)
    requires |args| >= 1 && AllNums(args)
    ensures Arith(Plus, args) == Num(Sum(args))
  {
    assert Arith(Plus, args) == Fold(Plus, args[0].n, args[1..]);
    assert Sum(args) == args[0].n + Sum(args[1..]);
    FoldPlus(args[0].n, args[1..]);
  }

  /** `*` multiplies all its arguments. */
  lemma ArithProduct(args: seq<Value>)
    requires |args| >= 1 && AllNums(args)
    ensures Arith(Times, args) == Num(Product(args))
  {
    FoldTimes(args[0].n, args[1..]);
  }

  /** `-` negates a single argument, and otherwise subtracts all the others
      from the first. */
  lemma ArithDifference(args: seq<Value>)
    requires |args| >= 1 && AllNums(args)
    ensures |args| == 1 ==> Arith(Minus, args) == Num(-args[0].n)
    ensures |args| > 1 ==> Arith(Minus, args) == Num(args[0].n - Sum(args[1..]))
  {
    if |args| > 1 {
      FoldMinus(args[0].n, args[1..]);
    }
  }

  /** Division and remainder fail exactly when some divisor, that is some
      argument after the first, is zero; the fold stops at the first one. */
  lemma {:induction false} FoldDivisionByZero(op: Op, x: int, ys: seq<Value>)
    requires op == Divide || op == Modulo
    requires AllNums(ys)
    ensures Fold(op, x, ys).Err? <==> exists i :: 0 <= i < |ys| && ys[i].n == 0
    decreases |ys|
  {
    if ys != [] && ys[0].n != 0 {
      FoldDivisionByZero(op, Combine(op, x, ys[0].n), ys[1..]);
      assert forall i :: 1 <= i < |ys| ==> ys[i] == ys[1..][i - 1];
      assert forall i :: 0 <= i < |ys| - 1 ==> ys[1..][i] == ys[i + 1];
    }
  }

  lemma ArithDivisionByZero(op: Op, args: seq<Value>)
    requires op == Divide || op == Modulo
    requires |args| >= 1 && AllNums(args)
    ensures Arith(op, args) == Err(DIVISION_BY_ZERO) <==> exists i :: 1 <= i < |args| && args[i].n == 0
  {
    FoldDivisionByZero(op, args[0].n, args[1..]);
    assert forall i :: 1 <= i < |args| ==> args[i] == args[1..][i - 1];
    assert forall i :: 0 <= i < |args| - 1 ==> args[1..][i] == args[i + 1];
  }

  /** `builtin_head`: the single Q-expression argument, cut down to its first
      element. */
  function Head(args: seq<Value>): (r: Value)
    ensures r.QExpr? <==> |args| == 1 && args[0].QExpr? && args[0].cells != []
    ensures r.QExpr? ==> r.cells == [args[0].cells[0]]
    ensures !r.QExpr? ==> r.Err?
  {
    if |args| != 1 then Err("Function 'head' passed too many arguments!")
    else if !args[0].QExpr? then Err("Function 'head' passed incorrect type!")
    else if |args[0].cells| == 0 then Err("Function 'head' passed {}!")
    else QExpr(args[0].cells[..1])
  }

  /** `builtin_tail`: the single Q-expression argument without its first
      element. */
  function Tail(args: seq<Value>): (r: Value)
    ensures r.QExpr? <==> |args| == 1 && args[0].QExpr? && args[0].cells != []
    ensures !r.QExpr? ==> r.Err?
  {
    if |args| != 1 then Err("Function 'tail' passed too many arguments!")
    else if !args[0].QExpr? then Err("Function 'tail' passed incorrect type!")
    else if |args[0].cells| == 0 then Err("Function 'tail' passed {}!")
    else QExpr(args[0].cells[1..])
  }

  /** `builtin_init`: the single Q-expression argument without its last
      element. */
  function Init(args: seq<Value>): (r: Value)
    ensures r.QExpr? <==> |args| == 1 && args[0].QExpr? && args[0].cells != []
    ensures !r.QExpr? ==> r.Err?
  {
    if |args| != 1 then Err("Function 'init' passed too many arguments!")
    else if !args[0].QExpr? then Err("Function 'init' passed incorrect type!")
    else if |args[0].cells| == 0 then Err("Function 'init' passed {}!")
    else QExpr(args[0].cells[..|args[0].cells| - 1])
  }

  /** `builtin_len`: the number of elements of the single Q-expression
      argument. */
  function Len(args: seq<Value>): (r: Value)
    ensures r.Num? <==> |args| == 1 && args[0].QExpr?
    ensures r.Num? ==> r.n == |args[0].cells|
    ensures !r.Num? ==> r.Err?
  {
    if |args| != 1 then Err("Function 'len' passed too many arguments!")
    else if !args[0].QExpr? then Err("Function 'len' passed incorrect type!")
    else Num(|args[0].cells|)
  }

  /** `builtin_cons`: the second argument, a Q-expression, with the first
      argument, of any kind, put in front. */
  function Cons(args: seq<Value>): (r: Value)
    ensures r.QExpr? <==> |args| == 2 && args[1].QExpr?
    ensures !r.QExpr? ==> r.Err?
  {
    if |args| != 2 then Err("Function 'cons' should pass two arguments!")
    else if !args[1].QExpr? then Err("Function 'cons' passed incorrect type!")
    else QExpr([args[0]] + args[1].cells)
  }

  /** `builtin_list`: the argument list itself, retagged as a Q-expression. */
  function List(args: seq<Value>): (r: Value)
    ensures r.QExpr? && r.cells == args
  {
    QExpr(args)
  }

  /** The elements of the Q-expressions `qs`, in argument order. */
  function Concat(qs: seq<Value>): seq<Value>
    requires AllQExprs(qs)
  {
    if qs == [] then [] else qs[0].cells + Concat(qs[1..])
  }

  /** `builtin_join`: all arguments must be Q-expressions; the result
      holds their elements in argument order. */
  function Join(args: seq<Value>): (r: Value)
    ensures r.QExpr? <==> AllQExprs(args)
    ensures !r.QExpr? ==> r == Err("Function 'join' passed incorrect type.")
  {
    if !AllQExprs(args) then Err("Function 'join' passed incorrect type.")
    else QExpr(Concat(args))
  }

  /** The number of elements of a list of Q-expressions, summed. */
  function TotalLen(qs: seq<Value>): nat
    requires AllQExprs(qs)
  {
    if qs == [] then 0 else |qs[0].cells| + TotalLen(qs[1..])
  }

  lemma {:induction false} ConcatLength(qs: seq<Value>)
    requires AllQExprs(qs)
    ensures |Concat(qs)| == TotalLen(qs)
    decreases |qs|
  {
    if qs != [] {
      ConcatLength(qs[1..]);
    }
  }

  /** `len` of a `join` is the sum of the lengths of the joined lists. */
  lemma LenJoin(args: seq<Value>)
    requires AllQExprs(args)
    ensures Len([Join(args)]) == Num(TotalLen(args))
  {
    ConcatLength(args);
  }

  lemma {:induction false} ConcatAppend(a: seq<Value>, b: seq<Value>)
    requires AllQExprs(a) && AllQExprs(b)
    ensures AllQExprs(a + b) && Concat(a + b) == Concat(a) + Concat(b)
    decreases |a|
  {
    if a != [] {
      ConcatAppend(a[1..], b);
      assert (a + b)[0] == a[0] && (a + b)[1..] == a[1..] + b;
      calc {
        Concat(a + b);
        a[0].cells + Concat(a[1..] + b);
        a[0].cells + (Concat(a[1..]) + Concat(b));
        (a[0].cells + Concat(a[1..])) + Concat(b);
        Concat(a) + Concat(b);
      }
    } else {
      assert a + b == b;
    }
  }

  lemma ConcatCons(q: Value, rest: seq<Value>)
    requires q.QExpr? && AllQExprs(rest)
    ensures AllQExprs([q] + rest) && Concat([q] + rest) == q.cells + Concat(rest)
  {
    assert ([q] + rest)[1..] == rest;
  }

  /** Joining is associative: joining in two steps, either way round, gives
      the join of all three lists. */
  lemma JoinAssociative(x: Value, y: Value, z: Value)
    requires x.QExpr? && y.QExpr? && z.QExpr?
    ensures Join([Join([x, y]), z]) == Join([x, y, z]) == Join([x, Join([y, z])])
  {
    ConcatPair(x, y);
    ConcatPair(y, z);
    var xy, yz := QExpr(x.cells + y.cells), QExpr(y.cells + z.cells);
    ConcatPair(xy, z);
    ConcatPair(x, yz);
    ConcatTriple(x, y, z);
    assert x.cells + (y.cells + z.cells) == x.cells + y.cells + z.cells;
  }

  lemma ConcatPair(x: Value, y: Value)
    requires x.QExpr? && y.QExpr?
    ensures AllQExprs([x, y]) && Concat([x, y]) == x.cells + y.cells
  {
    ConcatCons(y, []);
    ConcatCons(x, [y]);
    assert [x, y] == [x] + [y] && [y] == [y] + [];
  }

  lemma ConcatTriple(x: Value, y: Value, z: Value)
    requires x.QExpr? && y.QExpr? && z.QExpr?
    ensures AllQExprs([x, y, z]) && Concat([x, y, z]) == x.cells + y.cells + z.cells
  {
    ConcatPair(y, z);
    ConcatCons(x, [y, z]);
    assert [x, y, z] == [x] + [y, z];
  }

  /** `head`, `tail` and `cons` invert each other: consing an element onto a
      list and taking head and tail gives the parts back, and consing the head
      element onto the tail rebuilds a non-empty list. */
  lemma HeadTailCons(x: Value, q: Value)
    requires q.QExpr?
    ensures Head([Cons([x, q])]) == QExpr([x])
    ensures Tail([Cons([x, q])]) == q
    ensures q.cells != [] ==> Cons([Head([q]).cells[0], Tail([q])]) == q
  {
    assert ([x] + q.cells)[1..] == q.cells;
    if q.cells != [] {
      assert [q.cells[0]] + q.cells[1..] == q.cells;
    }
  }

  /** Joining `init` of a non-empty list with a list of its last element
      rebuilds the list, as does joining its `head` with its `tail`. */
  lemma InitHeadTailJoin(q: Value)
    requires q.QExpr? && q.cells != []
    ensures Join([Init([q]), QExpr([q.cells[|q.cells| - 1]])]) == q
    ensures Join([Head([q]), Tail([q])]) == q
    ensures Len([Init([q])]) == Len([Tail([q])]) == Num(|q.cells| - 1)
  {
    var n := |q.cells| - 1;
    var last := QExpr([q.cells[n]]);
    ConcatCons(last, []);
    ConcatCons(Init([q]), [last]);
    assert [Init([q]), last] == [Init([q])] + [last] && [last] == [last] + [];
    ConcatCons(Tail([q]), []);
    ConcatCons(Head([q]), [Tail([q])]);
    assert [Head([q]), Tail([q])] == [Head([q])] + [Tail([q])] && [Tail([q])] == [Tail([q])] + [];
    assert q.cells[..n] + [q.cells[n]] == q.cells;
    assert q.cells[..1] + q.cells[1..] == q.cells;
  }

  /** The names of a list of symbols. */
  function Names(cs: seq<Value>): (ns: seq<string>)
    requires forall i :: 0 <= i < |cs| ==> cs[i].Sym?
    ensures |ns| == |cs| && forall i :: 0 <= i < |cs| ==> ns[i] == cs[i].name
  {
    seq(|cs|, i requires 0 <= i < |cs| => cs[i].name)
  }

  /** `builtin_def`: the first argument must be a Q-expression of symbols, one
      for each remaining argument; symbol `i` is then bound to argument
      `i + 1` in the one environment given, in order, and the result is the
      empty S-expression. A failed check leaves the environment alone. */
  function Def(t: Table, args: seq<Value>): (r: (Value, Table))
    requires t.Valid() && |args| >= 1
    ensures r.1.Valid()
    ensures r.0 == SExpr([]) || (r.0.Err? && r.1 == t)
    ensures r.0 == SExpr([]) <==>
              && args[0].QExpr?
              && (forall i :: 0 <= i < |args[0].cells| ==> args[0].cells[i].Sym?)
              && |args[0].cells| == |args| - 1
  {
    if !args[0].QExpr? then
      (Err("Function 'def' passed incorrect type!"), t)
    else if exists i :: 0 <= i < |args[0].cells| && !args[0].cells[i].Sym? then
      (Err("Function 'def' cannot define non-symbol!"), t)
    else if |args[0].cells| != |args| - 1 then
      (Err("Function 'def' cannot define incorrect number of values to symbols!"), t)
    else
      (SExpr([]), BindAll(t, Names(args[0].cells), args[1..]))
  }

  /** After a successful `def`, each defined name holds the value given last
      for it, and every other name is looked up as before. */
  lemma DefBinds(t: Table, args: seq<Value>, k: string)
    requires t.Valid() && |args| >= 1
    requires Def(t, args).0 == SExpr([])
    ensures var ks := Names(args[0].cells);
            && (k in ks ==> Lookup(Def(t, args).1, k) == args[1 + LastIndexOf(ks, k)])
            && (k !in ks ==> Lookup(Def(t, args).1, k) == Lookup(t, k))
  {
    var ks := Names(args[0].cells);
    LookupBindAll(t, ks, args[1..], k);
  }

  /** The name `lenv_add_builtins` registers each builtin under. */
  function BuiltinName(f: Builtin): string
  {
    match f
    case ListFn => "list"
    case HeadFn => "head"
    case TailFn => "tail"
    case EvalFn => "eval"
    case JoinFn => "join"
    case ConsFn => "cons"
    case InitFn => "init"
    case LenFn => "len"
    case DefFn => "def"
    case AddFn => "+"
    case SubFn => "-"
    case MulFn => "*"
    case DivFn => "/"
  }

  /** The number of `lenv_add_builtin` calls in `lenv_add_builtins`. */
  const REGISTRATIONS: nat := 13

  /** The builtin of the `n`th `lenv_add_builtin` call: first the list
      functions, then the mathematical ones. */
  function BuiltinAt(n: nat): Builtin
    requires n < REGISTRATIONS
  {
    if n == 0 then ListFn else if n == 1 then HeadFn else if n == 2 then TailFn
    else if n == 3 then EvalFn else if n == 4 then JoinFn else if n == 5 then ConsFn
    else if n == 6 then InitFn else if n == 7 then LenFn else if n == 8 then DefFn
    else if n == 9 then AddFn else if n == 10 then SubFn else if n == 11 then MulFn
    else DivFn
  }

  /** Each builtin is registered once: the calls register pairwise
      different builtins, and every builtin is among them. */
  lemma EachBuiltinOnce(f: Builtin)
    ensures exists n :: 0 <= n < REGISTRATIONS && BuiltinAt(n) == f
    ensures forall m, n :: 0 <= m < n < REGISTRATIONS ==> BuiltinAt(m) != BuiltinAt(n)
  {
    match f
    case ListFn => assert BuiltinAt(0) == f;
    case HeadFn => assert BuiltinAt(1) == f;
    case TailFn => assert BuiltinAt(2) == f;
    case EvalFn => assert BuiltinAt(3) == f;
    case JoinFn => assert BuiltinAt(4) == f;
    case ConsFn => assert BuiltinAt(5) == f;
    case InitFn => assert BuiltinAt(6) == f;
    case LenFn => assert BuiltinAt(7) == f;
    case DefFn => assert BuiltinAt(8) == f;
    case AddFn => assert BuiltinAt(9) == f;
    case SubFn => assert BuiltinAt(10) == f;
    case MulFn => assert BuiltinAt(11) == f;
    case DivFn => assert BuiltinAt(12) == f;
  }

  /** The first `n` calls of `lenv_add_builtins`, made one after the other
      on `t`. */
  function Registered(t: Table, n: nat): (r: Table)
    requires t.Valid() && n <= REGISTRATIONS
    ensures r.Valid()
  {
    if n == 0 then t
    else Bind(Registered(t, n - 1), BuiltinName(BuiltinAt(n - 1)), Fun(BuiltinAt(n - 1)))
  }

  /** The registered names, in registration order. */
  const BUILTIN_NAMES: seq<string> :=
    ["list", "head", "tail", "eval", "join", "cons", "init", "len", "def", "+", "-", "*", "/"]

  /** The registered function values, in registration order. */
  function BuiltinValues(): (vs: seq<Value>)
    ensures |vs| == REGISTRATIONS
    ensures forall i :: 0 <= i < REGISTRATIONS ==> vs[i] == Fun(BuiltinAt(i))
  {
    seq(REGISTRATIONS, i requires 0 <= i < REGISTRATIONS => Fun(BuiltinAt(i)))
  }

  /** `BUILTIN_NAMES` lists the name of each call's builtin. */
  lemma NamesInOrder()
    ensures |BUILTIN_NAMES| == REGISTRATIONS
    ensures forall i :: 0 <= i < REGISTRATIONS ==> BUILTIN_NAMES[i] == BuiltinName(BuiltinAt(i))
  {
  }

  /** The calls of `lenv_add_builtins` bind the names of `BUILTIN_NAMES` to
      the values of `BuiltinValues`, in index order. */
  lemma {:induction false} RegisteredInOrder(t: Table, n: nat)
    requires t.Valid() && n <= REGISTRATIONS
    ensures Registered(t, n) == BindAll(t, BUILTIN_NAMES[..n], BuiltinValues()[..n])
  {
    NamesInOrder();
    if n > 0 {
      RegisteredInOrder(t, n - 1);
      BindAllSnoc(t, BUILTIN_NAMES, BuiltinValues(), n - 1);
    }
  }

  /** All thirteen calls bind all of `BUILTIN_NAMES`. */
  lemma RegisteredAll(t: Table)
    requires t.Valid()
    ensures Registered(t, REGISTRATIONS) == BindAll(t, BUILTIN_NAMES, BuiltinValues())
  {
    NamesInOrder();
    RegisteredInOrder(t, REGISTRATIONS);
    WholeSlice(BUILTIN_NAMES);
    WholeSlice(BuiltinValues());
  }

  lemma WholeSlice<T>(s: seq<T>)
    ensures s[..|s|] == s
  {
  }

  /** After `lenv_add_builtins`, each registered name is bound to its
      builtin, and every other name is bound as before. */
  lemma RegisteredLookup(t: Table, k: string)
    requires t.Valid()
    ensures forall i :: 0 <= i < REGISTRATIONS ==> Lookup(Registered(t, REGISTRATIONS), BUILTIN_NAMES[i]) == Fun(BuiltinAt(i))
    ensures k !in BUILTIN_NAMES ==> Lookup(Registered(t, REGISTRATIONS), k) == Lookup(t, k)
  {
    NamesInOrder();
    RegisteredAll(t);
    BuiltinNamesDistinct();
    forall i | 0 <= i < REGISTRATIONS
      ensures Lookup(Registered(t, REGISTRATIONS), BUILTIN_NAMES[i]) == Fun(BuiltinAt(i))
    {
      LookupBindAll(t, BUILTIN_NAMES, BuiltinValues(), BUILTIN_NAMES[i]);
      assert LastIndexOf(BUILTIN_NAMES, BUILTIN_NAMES[i]) == i;
    }
    LookupBindAll(t, BUILTIN_NAMES, BuiltinValues(), k);
  }

  /** The environment `main` evaluates in: `lenv_add_builtins` applied to a
      new, empty `lenv`. */
  function Root(): (t: Table)
    ensures t.Valid()
  {
    Registered(EMPTY, REGISTRATIONS)
  }

  /** The root environment holds exactly the thirteen registrations, in
      order: `lenv_put` appended each name to the arrays. */
  lemma RootTable()
    ensures Root() == Table(BUILTIN_NAMES, BuiltinValues())
  {
    RegisteredAll(EMPTY);
    BuiltinNamesDistinct();
    BindAllFresh(BUILTIN_NAMES, BuiltinValues());
  }

  /** In the root environment each registered name is bound to its builtin,
      and every other name, `%` among them, is unbound. */
  lemma RootBindings()
    ensures forall i :: 0 <= i < REGISTRATIONS ==> Lookup(Root(), BUILTIN_NAMES[i]) == Fun(BuiltinAt(i))
    ensures forall k :: k !in BUILTIN_NAMES ==> Lookup(Root(), k) == Err(UNBOUND_SYMBOL)
    ensures Lookup(Root(), "%") == Err(UNBOUND_SYMBOL)
  {
    forall k | k !in BUILTIN_NAMES
      ensures Lookup(Root(), k) == Err(UNBOUND_SYMBOL)
    {
      RegisteredLookup(EMPTY, k);
    }
    RegisteredLookup(EMPTY, "%");
    PercentNotBuiltin();
  }

  /** In the root environment the name of each builtin looks up to it. */
  lemma RootLookup(f: Builtin)
    ensures Lookup(Root(), BuiltinName(f)) == Fun(f)
  {
    EachBuiltinOnce(f);
    var n :| 0 <= n < REGISTRATIONS && BuiltinAt(n) == f;
    RootBindings();
    NamesInOrder();
  }

  /** `%` is not among the registered names. */
  lemma PercentNotBuiltin()
    ensures "%" !in BUILTIN_NAMES
  {
    forall i | 0 <= i < |BUILTIN_NAMES| ensures BUILTIN_NAMES[i] != "%" {
      assert |BUILTIN_NAMES[i]| != 1 || BUILTIN_NAMES[i][0] != '%';
    }
  }

  /** No name is registered twice: names of equal length differ in their
      first character. */
  lemma BuiltinNamesDistinct()
    ensures Distinct(BUILTIN_NAMES)
  {
    forall i, j | 0 <= i < j < |BUILTIN_NAMES|
      ensures BUILTIN_NAMES[i] != BUILTIN_NAMES[j]
    {
      assert |BUILTIN_NAMES[i]| != |BUILTIN_NAMES[j]| || BUILTIN_NAMES[i][0] != BUILTIN_NAMES[j][0];
    }
  }
}
