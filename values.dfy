/// The value model of the evaluator: the six kinds of `lval`, the builtins an
/// `LVAL_FUN` cell can hold, the fixed error messages, the deep copy and C's
/// truncating integer division.
module Values {

  /** The builtins `lenv_add_builtins` registers. The C code keeps the
      address of a C function in the `fun` field of an `LVAL_FUN` cell; here
      it is a closed enumeration that the evaluator dispatches on. */
  datatype Builtin =
    | ListFn | HeadFn | TailFn | EvalFn | JoinFn | ConsFn | InitFn | LenFn | DefFn
    | AddFn | SubFn | MulFn | DivFn

  /** The operators `builtin_op` tells apart by its string argument. `Modulo`
      has a branch there but no builtin is bound to it. */
  datatype Op = Plus | Minus | Times | Divide | Modulo

  /** An `lval`. `SExpr` and `QExpr` own their ordered child cells. */
  datatype Value =
    | Num(n: int)
    | Err(msg: string)
    | Sym(name: string)
    | Fun(fn: Builtin)
    | SExpr(cells: seq<Value>)
    | QExpr(cells: seq<Value>)

  const UNBOUND_SYMBOL: string := "unbound symbol!"
  const NOT_A_FUNCTION: string := "first element is not a function!"
  const NON_NUMBER: string := "Cannot operator on non number!"
  const DIVISION_BY_ZERO: string := "Division by Zero!"
  /** Not a message of the C program: the model bounds evaluation depth by a
      fuel count and reports running out of it with this error. */
  const DEPTH_EXHAUSTED: string := "evaluation depth exhausted"

  /** `lval_copy`: a structural deep copy, rebuilt node by node. On immutable
      values the copy is equal to the original. */
  function Copy(v: Value): (r: Value)
    ensures r == v
  {
    match v
    case Num(n) => Num(n)
    case Err(m) => Err(m)
    case Sym(s) => Sym(s)
    case Fun(f) => Fun(f)
    case SExpr(cs) => SExpr(CopyCells(cs, v))
    case QExpr(cs) => QExpr(CopyCells(cs, v))
  }

  /** The loop of `lval_copy` over the `cell` array of a container `parent`. */
  function CopyCells(cs: seq<Value>, ghost parent: Value): (r: seq<Value>)
    requires parent.SExpr? || parent.QExpr?
    requires cs == parent.cells
    ensures r == cs
    decreases parent, 0
  {
    var r := seq(|cs|, i requires 0 <= i < |cs| => Copy(cs[i]));
    assert forall i :: 0 <= i < |cs| ==> r[i] == cs[i];
    r
  }

  function Abs(x: int): nat
  {
    if x < 0 then -x else x
  }

  /** C's `/` on integers: the quotient rounded toward zero. */
  function CDiv(a: int, b: int): (q: int)
    requires b != 0
    ensures Abs(q) == Abs(a) / Abs(b)
    ensures q == 0 || (q < 0 <==> (a < 0) != (b < 0))
  {
    NaturalDivision(Abs(a), Abs(b));
    if (a < 0) == (b < 0) then Abs(a) / Abs(b) else -(Abs(a) / Abs(b))
  }

  /** C's `%` on integers: the remainder takes the sign of the dividend. */
  function CMod(a: int, b: int): (m: int)
    requires b != 0
    ensures Abs(m) == Abs(a) % Abs(b)
    ensures m == 0 || (m < 0 <==> a < 0)
  {
    NaturalDivision(Abs(a), Abs(b));
    if a < 0 then -(Abs(a) % Abs(b)) else Abs(a) % Abs(b)
  }

  /** Quotient and remainder of natural numbers are natural numbers. */
  lemma NaturalDivision(x: nat, y: nat)
    requires y > 0
    ensures x / y >= 0 && 0 <= x % y < y
  {
  }

  /** The C standard's contract for `/` and `%`: quotient and remainder
      recombine to the dividend, the remainder is smaller than the divisor in
      magnitude and carries the dividend's sign, and the quotient is
      symmetric under negating the dividend (truncation, not flooring). */
  lemma TruncatedDivision(a: int, b: int)
    requires b != 0
    ensures CDiv(a, b) * b + CMod(a, b) == a
    ensures Abs(CMod(a, b)) < Abs(b)
    ensures CMod(a, b) == 0 || (CMod(a, b) < 0 <==> a < 0)
    ensures CDiv(-a, b) == -CDiv(a, b)
  {
    Recombine(a, b);
    NaturalDivision(Abs(a), Abs(b));
    SymmetricQuotient(a, b);
  }

  /** Quotient times divisor plus remainder is the dividend, sign by sign. */
  lemma Recombine(a: int, b: int)
    requires b != 0
    ensures CDiv(a, b) * b + CMod(a, b) == a
  {
    var bigA: int, bigB: int := Abs(a), Abs(b);
    var q: int, m: int := bigA / bigB, bigA % bigB;
    assert bigA == q * bigB + m;
    NegatedProduct(q, bigB);
    if a < 0 && b < 0 {
      assert CDiv(a, b) == q && CMod(a, b) == -m && b == -bigB;
      assert CDiv(a, b) * b == -(q * bigB);
    } else if a < 0 {
      assert CDiv(a, b) == -q && CMod(a, b) == -m && b == bigB;
      assert CDiv(a, b) * b == -(q * bigB);
    } else if b < 0 {
      assert CDiv(a, b) == -q && CMod(a, b) == m && b == -bigB;
      assert CDiv(a, b) * b == q * bigB;
    } else {
      assert CDiv(a, b) == q && CMod(a, b) == m && b == bigB;
    }
  }

  lemma SymmetricQuotient(a: int, b: int)
    requires b != 0
    ensures CDiv(-a, b) == -CDiv(a, b)
  {
    assert Abs(-a) == Abs(a);
    if a == 0 {
      assert Abs(a) / Abs(b) == 0;
    }
  }

  lemma NegatedProduct(x: int, y: int)
    ensures (-x) * y == -(x * y) && x * (-y) == -(x * y) && (-x) * (-y) == x * y
  {
  }
}
