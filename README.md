# lispet evaluator core in Dafny

A model of the core of `lispet.c`, a small Lisp read-eval-print loop written
in C. The model covers the following parts of the program:

- **Values:** the six kinds of `lval` (number, error, symbol, builtin
  function, S-expression, Q-expression), plus `lval_copy`.
- **The environment:** the one flat `lenv` of parallel name and value arrays,
  with `lenv_get` and `lenv_put`.
- **Cell helpers:** the in-place helpers that reshape a container's `cell`
  array: `lval_add`, `lval_add_front`, `lval_pop`, `lval_take` and
  `lval_join`.
- **The evaluator:** `lval_eval` and `lval_eval_sexpr`.
- **The builtins:** `builtin_op` with `+ - * /`, and `head`, `tail`, `init`,
  `len`, `cons`, `list`, `eval`, `join` and `def`.
- **Registration:** `lenv_add_builtins` registers the thirteen builtins that
  `main` evaluates with.

The modules follow the program's layers:

- `Values` (`values.dfy`):
  - the `Value` datatype;
  - `Builtin`, which stands for the `fun` field of an `LVAL_FUN` cell;
  - the fixed error messages;
  - C's truncating `/` and `%` on integers.
- `Environment` (`environment.dfy`):
  - `Table`, the bindings as a value, with `Lookup`, `Bind` and `BindAll`;
  - the class `Env`, whose `Get` and `Put` loop over the arrays as
    `lenv_get` and `lenv_put` do and are proved to compute `Lookup` and
    `Bind`.
- `Cells` (`cells.dfy`): the class `Expr`. It holds a container's tag, its
  `cell` array and its count. Its methods are the cell helpers, each proved
  to reshape the children as the C helper does.
- `Builtins` (`builtins.dfy`):
  - each builtin as a function on its argument list, with lemmas for what
    the builtins promise: sums and products, truncating division, division
    by zero, the inverse pairs head/tail/cons and init/join, and the
    associativity of join;
  - `def` and what it binds;
  - the order of registration and the root environment it yields.
- `Semantics` (`semantics.dfy`):
  - evaluation as functions from a value and a table to a result and the
    table afterwards;
  - the lemmas that pin down the order of evaluation, the first-error rule,
    the empty and single-child cases, `NOT_A_FUNCTION` and the retagging in
    `eval`.
- `Interp` (`interp.dfy`):
  - the evaluator and the builtins as the C code runs them: the S-expression
    is an `Expr` whose cells are overwritten, popped and retagged, and the
    environment is an `Env` that `def` updates in place;
  - each method is proved to compute the corresponding function of
    `Semantics` or `Builtins`.
- `Scenarios` (`scenarios.dfy`): already-read input values evaluated in an
  environment where the names they use are bound as `lenv_add_builtins`
  binds them. The root environment is one: by `Builtins.RootLookup`, the
  name of every builtin is bound to it there. All of them but
  `ModuloUnbound` are lines the reader accepts at the prompt.

Evaluation carries a `fuel` count that bounds how deeply S-expressions may
nest, because `eval` can re-enter the evaluator without end. An example is
`def {f} {eval f}` followed by `eval f` (`Semantics.SelfEvalDiverges`).
Running out of fuel gives an error that the C program does not have, unless
an earlier child of an enclosing S-expression is an error. That error is
then the result, as in the C program, but the table lacks the bindings that
the starved child would have made (`Semantics.ExhaustionHiddenByEarlierError`).

Children of an S-expression are evaluated left to right in the one
environment (`lispet.c:304-306`). A `def` inside an earlier child is
therefore visible to later children.

## Model

| member | source | states |
|---|---|---|
| Values.Copy | lispet.c:199-221 | the deep copy is equal to the value copied, for every kind of `lval` |
| Values.CopyCells | lispet.c:213-217 | copying the cells of a container child by child yields the same cells, in order |
| Values.CDiv | lispet.c:395 | C's `/=`: the magnitude of the quotient is the magnitude of the dividend divided by that of the divisor, and a non-zero quotient is negative exactly when the operands' signs differ |
| Values.CMod | lispet.c:404 | C's `%=`: the magnitude of the remainder is the remainder of the magnitudes, and a non-zero remainder has the dividend's sign |
| Values.TruncatedDivision | lispet.c:395 | C's `/` and `%`: quotient times divisor plus remainder gives back the dividend, the remainder is smaller than the divisor and has the dividend's sign, and the quotient is truncated toward zero (negating the dividend negates it) |
| Environment.IndexOf | lispet.c:94-96 | the linear search finds the first index holding the name, and no earlier index holds it |
| Environment.Lookup | lispet.c:92-100 | an unknown name gives "unbound symbol!"; a known name gives the value stored beside it |
| Environment.Bind | lispet.c:102-124 | after `lenv_put` the arrays stay parallel and no name is held twice |
| Environment.BindShape | lispet.c:102-124 | rebinding a name changes only its own slot and keeps the count; a new name is appended at index `count` with its value, and earlier entries are kept |
| Environment.LookupBind | lispet.c:92-124 | after putting `k`, getting `k` gives the new value and every other name gives what it gave before |
| Environment.BindAll | lispet.c:536-538 | binding several names in order keeps the table well formed |
| Environment.BindAllSnoc | lispet.c:536-538 | one more `lenv_put` extends the bindings made so far |
| Environment.LookupBindAll | lispet.c:536-538 | after a run of puts, a name put more than once holds its last value and an untouched name looks up as before |
| Environment.BindAllFresh | lispet.c:116-123 | putting distinct new names into an empty environment appends them to the arrays in order |
| Environment.Env.constructor | lispet.c:71-78 | `lenv_new` yields an environment with no bindings |
| Environment.Env.Get | lispet.c:92-100 | the loop returns the lookup of the name, and the unbound error for a name not in the array |
| Environment.Env.Put | lispet.c:102-124 | the loop leaves the arrays equal to `Bind` of the old contents |
| Cells.Expr.FromCells | lispet.c:160-176 | `lval_sexpr` or `lval_qexpr` followed by one `lval_add` per child gives a container of that kind holding exactly those children, in order |
| Cells.Expr.Grow | lispet.c:226 | the `realloc` gives room for one more cell and keeps the children |
| Cells.Expr.Add | lispet.c:223-229 | `lval_add` appends the cell after the last child and keeps the others |
| Cells.Expr.AddFront | lispet.c:231-238 | the `memmove` shifts every child up one slot and the new cell becomes child 0 |
| Cells.Expr.ShiftUp | lispet.c:235 | the `memmove` moves every child one slot up, into the spare slot |
| Cells.Expr.Pop | lispet.c:344-357 | returns child `i` and leaves the children before and after it, in order, one fewer |
| Cells.Expr.Take | lispet.c:359-364 | returns child `i` of the container |
| Cells.Expr.Join | lispet.c:494-504 | `lval_join` leaves in `x` its children followed by those of `y`, in order |
| Cells.Expr.MoveFirst | lispet.c:498 | one turn of `lval_join` moves the first child of `y` to the end of `x`, keeping the concatenation of the two |
| Builtins.Arith | lispet.c:368-415 | `builtin_op` yields a number, "Cannot operator on non number!" or "Division by Zero!" and nothing else; a single number given to `+`, `*` or `/` comes back unchanged |
| Builtins.Fold | lispet.c:383-410 | the loop of `builtin_op` ends in a number or in "Division by Zero!" |
| Builtins.ArithNonNumber | lispet.c:371-376 | `builtin_op` gives "Cannot operator on non number!" exactly when some argument is not a number; otherwise a number or the division error |
| Builtins.FoldPlus | lispet.c:386 | repeated `+=` adds the sum of the remaining numbers |
| Builtins.FoldMinus | lispet.c:387 | repeated `-=` subtracts the sum of the remaining numbers |
| Builtins.FoldTimes | lispet.c:388 | repeated `*=` multiplies by the product of the remaining numbers |
| Builtins.ArithSum | lispet.c:417 | `+` yields the sum of all its arguments |
| Builtins.ArithProduct | lispet.c:419 | `*` yields the product of all its arguments |
| Builtins.ArithDifference | lispet.c:381-387 | `-` negates a lone argument, and otherwise subtracts all the others from the first |
| Builtins.FoldDivisionByZero | lispet.c:389-406 | `/` and `%` fail exactly when one of the divisors is zero |
| Builtins.ArithDivisionByZero | lispet.c:389-406 | `/` yields "Division by Zero!" exactly when some argument after the first is zero |
| Builtins.Head | lispet.c:422-434 | the result is a list exactly when there is a single non-empty list argument, and then holds only its first element; otherwise an error |
| Builtins.Tail | lispet.c:436-445 | the result is a list exactly when there is a single non-empty list argument; otherwise an error |
| Builtins.Init | lispet.c:447-456 | the result is a list exactly when there is a single non-empty list argument; otherwise an error |
| Builtins.Len | lispet.c:458-466 | a number exactly for a single list argument, equal to its element count; otherwise an error |
| Builtins.Cons | lispet.c:468-476 | a list exactly when there are two arguments and the second is a list; otherwise an error |
| Builtins.List | lispet.c:478-482 | the arguments themselves, as a Q-expression |
| Builtins.Join | lispet.c:506-520 | a list exactly when every argument is a list, otherwise "Function 'join' passed incorrect type." |
| Builtins.LenJoin | lispet.c:506-520 | the length of a join is the sum of the lengths of the joined lists |
| Builtins.JoinAssociative | lispet.c:506-520 | joining `x y` then `z`, or `x` then `y z`, both give the join of `x y z` |
| Builtins.HeadTailCons | lispet.c:422-476 | head and tail of `cons x q` give back `{x}` and `q`; consing the head element onto the tail rebuilds a non-empty list |
| Builtins.InitHeadTailJoin | lispet.c:422-520 | joining init with the last element, or head with tail, rebuilds the list; init and tail are one shorter |
| Builtins.Names | lispet.c:529-531 | the names of a list of symbols, one per symbol, in order |
| Builtins.Def | lispet.c:522-542 | `def` returns `()` exactly when its first argument is a Q-expression holding only symbols, one for each remaining argument; otherwise an error that leaves the environment untouched |
| Builtins.DefBinds | lispet.c:536-538 | after a successful `def`, each defined name holds the last value given for it and other names are unchanged |
| Builtins.EachBuiltinOnce | lispet.c:552-570 | the thirteen registrations are of pairwise different builtins and cover every builtin |
| Builtins.Registered | lispet.c:552-570 | each prefix of the registrations keeps the table well formed |
| Builtins.NamesInOrder | lispet.c:552-570 | the table of registered names lists each registration's name, in call order |
| Builtins.RegisteredInOrder | lispet.c:552-570 | the first `n` registrations are the first `n` puts of the names with their function values |
| Builtins.RegisteredAll | lispet.c:552-570 | all registrations together put every registered name, in order |
| Builtins.RegisteredLookup | lispet.c:552-570 | after registration each registered name looks up to its builtin and every other name as before |
| Builtins.Root | lispet.c:596-597 | the environment `main` builds is well formed |
| Builtins.RootTable | lispet.c:596-597 | that environment holds exactly the thirteen names and function values, in registration order |
| Builtins.RootBindings | lispet.c:552-570 | in the root environment each registered name is bound to its builtin and every other name, `%` among them, is unbound |
| Builtins.RootLookup | lispet.c:552-570 | in the root environment the name of each builtin looks up to that builtin |
| Builtins.PercentNotBuiltin | lispet.c:552-570 | `%` is not among the registered names, although `builtin_op` has a branch for it |
| Builtins.BuiltinNamesDistinct | lispet.c:552-570 | no name is registered twice |
| Semantics.EvalSExpr | lispet.c:301-330 | `lval_eval_sexpr` leaves the environment well formed; its five outcomes are stated by `Semantics.EvalSExprCases` |
| Semantics.FirstErr | lispet.c:309-311 | the index of the first error child, with no error before it, or the count when there is none |
| Semantics.Eval | lispet.c:332-342 | a symbol is looked up and leaves the environment alone; a value other than a symbol or S-expression is returned as it is |
| Semantics.EvalCells | lispet.c:304-306 | evaluating the children gives one result per child |
| Semantics.Apply | lispet.c:327 | only `def` and `eval` can change the environment |
| Semantics.EvalBuiltin | lispet.c:484-492 | anything but a single Q-expression argument is an error that leaves the environment alone |
| Semantics.EvalCellsAppend | lispet.c:304-306 | children are evaluated strictly left to right, each in the environment the previous ones left |
| Semantics.EvalCellsStep | lispet.c:304-306 | child `i` is evaluated in the environment the first `i` children left |
| Semantics.EvalCellsFront | lispet.c:304-306 | the head child is evaluated first, in the environment as it was |
| Semantics.EvalCellsSingle | lispet.c:304-306 | a single child is evaluated in the environment as it was |
| Semantics.EvalCellsInert | lispet.c:332-342 | children that are neither symbols nor S-expressions come back unchanged, with the environment |
| Semantics.EvalSExprCases | lispet.c:301-330 | the first error wins; `()` is itself; `(x)` is `x` evaluated; a head that is not a function gives "first element is not a function!"; otherwise the builtin gets the other children |
| Semantics.HeadErrorWins | lispet.c:309-311 | when the head child evaluates to an error, that error is the value of the whole S-expression |
| Semantics.FirstErrIs | lispet.c:309-311 | an error with no error before it is the one the check loop takes |
| Semantics.CallInert | lispet.c:301-330 | a builtin's name followed by self-evaluating arguments applies the builtin to exactly those arguments |
| Semantics.EvalQuoted | lispet.c:484-492 | `(eval {x ...})` is `(x ...)` evaluated |
| Semantics.ListQuotes | lispet.c:478-482 | `(list x ...)` quotes its self-evaluating arguments |
| Semantics.DefThenLookup | lispet.c:522-542 | `(def {k} v)` returns `()`; afterwards `k` looks up to `v` and other names are unchanged |
| Semantics.EvalOfBoundList | lispet.c:484-492 | `(eval f)` with `f` bound to a list evaluates that list retagged as an S-expression |
| Semantics.SelfEvalDiverges | lispet.c:484-492 | with `f` bound to `{eval f}`, `(eval f)` runs out of any fuel: the C recursion never ends |
| Semantics.EarlierErrorKeepsLaterEffects | lispet.c:304-311 | in a two-child expression whose first child is an error, that error is the result, while the table is the one the second child leaves, since every child is evaluated before the error check |
| Semantics.OneOverZero | lispet.c:389-393 | `(/ 1 0)` is "Division by Zero!" and leaves the table alone |
| Semantics.OnePlusTwo | lispet.c:386 | `(+ 1 2)` is `3` and leaves the table alone |
| Semantics.DefStarved | lispet.c:304-311 | `(def {x} p)` with a nested S-expression `p` and one level of fuel is the depth error and binds nothing |
| Semantics.DefFed | lispet.c:522-542 | `(def {x} p)` where `p` evaluates to a non-error `v` returns `()` and binds `x` to `v` |
| Semantics.HiddenExhaustion | lispet.c:304-311 | `((/ 1 0) (def {x} (+ 1 2)))`, for any names bound to those builtins, is "Division by Zero!" at every fuel from two; with two the table is unchanged, from three `x` is bound to `3` |
| Semantics.ExhaustionHiddenByEarlierError | lispet.c:304-311 | when `/`, `def` and `+` are bound to their builtins, as in the root environment, `((/ 1 0) (def {x} (+ 1 2)))` is "Division by Zero!" at every fuel from two, but `x` is bound to `3`, as the C program binds it, only from three |
| Interp.Eval | lispet.c:332-342 | the method computes `Semantics.Eval`, with the environment changed exactly as it says |
| Interp.EvalExpr | lispet.c:332-342 | on a container: an S-expression is evaluated, a Q-expression returned, as `Semantics.Eval` says |
| Interp.EvalSExpr | lispet.c:301-330 | the in-place evaluation of the cells computes `Semantics.EvalSExpr` |
| Interp.EvalCells | lispet.c:304-306 | the loop overwrites each cell with its value, as `Semantics.EvalCells` says |
| Interp.FirstErr | lispet.c:309-311 | the check loop stops at the first error cell, or at the count |
| Interp.Call | lispet.c:327 | the call through the `fun` field computes `Semantics.Apply` |
| Interp.BuiltinOp | lispet.c:368-415 | `builtin_op` computes `Arith` on its arguments |
| Interp.AllNumbers | lispet.c:371-376 | the check loop is true exactly when every argument is a number |
| Interp.FoldRest | lispet.c:383-410 | the loop that pops and combines computes `Fold` |
| Interp.BuiltinHead | lispet.c:422-434 | computes `Head` by popping every element after the first |
| Interp.BuiltinTail | lispet.c:436-445 | computes `Tail` |
| Interp.BuiltinInit | lispet.c:447-456 | computes `Init` |
| Interp.BuiltinLen | lispet.c:458-466 | computes `Len` |
| Interp.BuiltinCons | lispet.c:468-476 | computes `Cons` through `lval_add_front` |
| Interp.BuiltinList | lispet.c:478-482 | retagging the arguments computes `List` |
| Interp.BuiltinJoin | lispet.c:506-520 | computes `Join` |
| Interp.AllLists | lispet.c:508-510 | the check loop is true exactly when every argument is a Q-expression |
| Interp.JoinRest | lispet.c:514-516 | the loop appends the elements of all remaining lists to `x`, in order |
| Interp.JoinList | lispet.c:515 | one `lval_join` appends the elements of the popped list |
| Interp.BuiltinDef | lispet.c:522-542 | computes `Def`, with the environment updated by the puts in order |
| Interp.BuiltinEval | lispet.c:484-492 | computes `Semantics.EvalBuiltin`: the retagged list is evaluated |
| Interp.AddBuiltin | lispet.c:544-550 | each call extends the registrations made so far by one |
| Interp.AddBuiltins | lispet.c:552-570 | the thirteen calls leave the environment equal to `Registered` of the old one |
| Interp.NewRoot | lispet.c:596-597 | `lenv_new` followed by `lenv_add_builtins` yields the root environment |
| Scenarios.SumOfThree | lispet.c:386 | `+ 1 2 3` is `6` |
| Scenarios.NegateOne | lispet.c:381 | `- 5` is `-5` |
| Scenarios.DivideTruncates | lispet.c:395 | `/ -7 2` is `-3` |
| Scenarios.DivideByZero | lispet.c:389-393 | `/ 10 0` is "Division by Zero!" |
| Scenarios.HeadOfList | lispet.c:422-434 | `head {1 2 3}` is `{1}` |
| Scenarios.TailOfList | lispet.c:436-445 | `tail {1 2 3}` is `{2 3}` |
| Scenarios.HeadOfNumber | lispet.c:425 | `head 5` is "Function 'head' passed incorrect type!" |
| Scenarios.DefineThenUse | lispet.c:522-542 | `def {x} 5` is `()`, after which `x` is `5` |
| Scenarios.ModuloUnbound | lispet.c:552-570 | the already-read value `(% 7 2)`, which the reader cannot produce, evaluates to "unbound symbol!" when `%` is unbound, as in the root environment (`Builtins.RootBindings`), because it is never registered |

## Left out

- The reader and parser (`lval_read`, `lval_read_num`, the grammar in `main`): input enters the model as an already-read `Value`. The "invalid number" error of `lval_read_num` is therefore not modelled.
- The printer (`lval_print`, `lval_expr_print`, `lval_println`), the prompt loop in `main`, `readline` and `add_history`, including the Windows replacement: these are I/O.
- Memory management (`lval_del`, `lenv_del`, `free`) and allocation failure: values are immutable and collected.
- Semantics.Eval: integers are unbounded. The model does not capture the overflow of the C `long` in `+`, `-` and `*`, in negating `LONG_MIN`, or in `LONG_MIN / -1`, since these are undefined behaviour in C.
- Semantics.Eval: evaluation takes a `fuel` bound, whereas the C program would recurse until the stack overflows. When fuel runs out, the result is an error the C program does not have. The exception is exhaustion inside a later child of an S-expression whose earlier child is an error: the result is then the C program's own error, but the table lacks the bindings that the starved child would have made (`Semantics.ExhaustionHiddenByEarlierError`).
- Cells.Expr.Pop: the array is not reallocated to the smaller size, so slots beyond `count` are unused storage rather than freed.
- Cells.Expr.Take: does not state what happens to the rest of the container, because `lval_take` frees it.
- Interp.Eval: a child S-expression is a `Value` inside its parent's cell array. It is laid out as a fresh `Expr` before it is evaluated in place, so the sharing of child `lval` cells between containers is not modelled.
- Interp.BuiltinOp: requires at least one argument. The C code does not check this, but its one caller, `lval_eval_sexpr`, always passes one or more. The same holds for `Interp.BuiltinJoin` and `Interp.BuiltinDef`.
- Interp.AddBuiltin: the name is derived from the builtin by `Builtins.BuiltinName` rather than passed as a string literal. The thirteen names and their order are the ones in `lenv_add_builtins`.
- Builtins.Tail and Builtins.Init: their own contracts do not state the resulting elements. `Builtins.HeadTailCons` and `Builtins.InitHeadTailJoin` state them.
- Semantics.EvalSExpr: its own contract states only that the environment stays well formed. Its five outcomes are stated in `Semantics.EvalSExprCases`.
- `%` as an operator of `builtin_op`: it is modelled (`Op.Modulo`, `CMod`), but it is unreachable because no builtin passes it. The reader's grammar (`lispet.c:584-585`) does not accept `%` in a symbol or a number either, so a line holding `%` ends in a parse error before evaluation.
- Lambdas, user-defined functions, parent environments, `exit`, strings and comments do not appear in `lispet.c`, so they are not modelled.
