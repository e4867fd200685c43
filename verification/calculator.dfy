/**
  The evaluator of calculator.py: the operator table, the recursive walk over
  an expression tree, and `evaluate` on the tree the parser returns.

  Values are Python ints, which are unbounded, so `int` models them without
  wrap-around. A result Python would produce as a float (true division, a
  negative exponent) is reported as `FloatResult` instead of a value, and
  so is the `OverflowError` Python raises instead when `/` has a quotient
  beyond the float range or `**` with a negative exponent has an operand
  beyond it.
 */
module Calculator {
  import opened Ast
  import PyArith

  /** Why an evaluation produced no value. */
  datatype EvalError =
    | UnsupportedOperator(name: string)           // ValueError, binary operator not in the table
    | UnsupportedUnaryOperator(name: string)      // ValueError, unary operator other than + and -
    | UnsupportedExpressionElement(name: string)  // ValueError, any other node class
    | ZeroDivision                                // ZeroDivisionError raised by an operator function
    | FloatResult(name: string)                   // a float value or a float-conversion error, outside this model
  {
    /** Errors raised by the arithmetic itself rather than by the shape of the tree. */
    predicate IsArithmetic()
    {
      ZeroDivision? || FloatResult?
    }
  }

  datatype Result<+T> = Ok(value: T) | Err(error: EvalError)
  {
    predicate IsFailure()
    {
      Err?
    }

    function PropagateFailure<U>(): Result<U>
      requires Err?
    {
      Err(error)
    }

    function Extract(): T
      requires Ok?
    {
      value
    }
  }

  /** The functions of Python's `operator` module that the table maps to. */
  datatype OperatorFunction = AddFn | SubFn | MulFn | TrueDivFn | FloorDivFn | ModFn | PowFn

  /** `_OPERATORS`: the seven supported operator classes and their semantics. */
  const Operators: map<BinaryOperator, OperatorFunction> :=
    map[
      Add := AddFn,
      Sub := SubFn,
      Mult := MulFn,
      Div := TrueDivFn,
      FloorDiv := FloorDivFn,
      Mod := ModFn,
      Pow := PowFn
    ]

  /** The least magnitude an int can have and still overflow when CPython
      converts it to a double: 2^1024 - 2^970, halfway between the largest
      finite double (2^1024 - 2^971) and 2^1024, where rounding to nearest
      even goes up to 2^1024. Written as (2^54 - 1) * 2^970 in hexadecimal. */
  const DoubleOverflowBound: int := 0xfffffffffffffc00000000000000000000000000000000000000000000000000000000000000000000000000000000000000000000000000000000000000000000000000000000000000000000000000000000000000000000000000000000000000000000000000000000000000000000000000000000000000000000000000

  /** A call `f(a, b)` of an operator function on two ints. `+`, `-` and `*`
      always give an int; `//` and `%` give one for a nonzero divisor, and
      `**` for a non-negative exponent. Only the division operators and a
      negative power of zero raise `ZeroDivisionError`. `**` with a negative
      exponent goes through float `pow`, which converts both operands to
      doubles before testing for a zero base, so an exponent beyond the
      double range overflows first. True division by a nonzero divisor and
      the other negative powers leave the integers, and every failure is an
      arithmetic one. */
  function Apply(f: OperatorFunction, a: int, b: int): (r: Result<int>)
    ensures r.Ok? <==>
      || f in {AddFn, SubFn, MulFn}
      || (f in {FloorDivFn, ModFn} && b != 0)
      || (f == PowFn && b >= 0)
    ensures r.Err? ==> r.error.IsArithmetic()
    ensures r == Err(ZeroDivision) <==>
      || (b == 0 && f in {TrueDivFn, FloorDivFn, ModFn})
      || (f == PowFn && a == 0 && -DoubleOverflowBound < b < 0)
    ensures r.Err? && r.error.FloatResult? <==>
      || (f == TrueDivFn && b != 0)
      || (f == PowFn && b < 0 && (a != 0 || b <= -DoubleOverflowBound))
  {
    match f
    case AddFn => Ok(a + b)
    case SubFn => Ok(a - b)
    case MulFn => Ok(a * b)
    case TrueDivFn => if b == 0 then Err(ZeroDivision) else Err(FloatResult("truediv"))
    case FloorDivFn => if b == 0 then Err(ZeroDivision) else Ok(PyArith.FloorDiv(a, b))
    case ModFn => if b == 0 then Err(ZeroDivision) else Ok(PyArith.Mod(a, b))
    case PowFn =>
      if b >= 0 then Ok(PyArith.Power(a, b))
      else if b <= -DoubleOverflowBound then Err(FloatResult("pow"))
      else if a == 0 then Err(ZeroDivision)
      else Err(FloatResult("pow"))
  }

  /** A tree built only from what the evaluator supports: numbers, unary `+`
      and `-`, and binary operators in the table. */
  predicate Supported(e: Expr)
  {
    match e
    case BinOp(left, op, right) => op in Operators && Supported(left) && Supported(right)
    case UnaryOp(op, operand) => (op == UAdd || op == USub) && Supported(operand)
    case Num(_) => true
    case Other(_) => false
  }

  /** `_eval_node`. A binary node evaluates its left operand, then its right
      one, and only then looks its operator up; a unary node evaluates its
      operand before checking its operator. An evaluation that succeeds saw
      only supported nodes, and a supported tree can only fail arithmetically. */
  function Eval(e: Expr): (r: Result<int>)
    ensures r.Ok? ==> Supported(e)
    ensures Supported(e) && r.Err? ==> r.error.IsArithmetic()
  {
    match e
    case BinOp(left, op, right) =>
      var l :- Eval(left);
      var r :- Eval(right);
      if op !in Operators then Err(UnsupportedOperator(op.Name()))
      else Apply(Operators[op], l, r)
    case UnaryOp(op, operand) =>
      var v :- Eval(operand);
      if op == UAdd then Ok(v)
      else if op == USub then Ok(-v)
      else Err(UnsupportedUnaryOperator(op.Name()))
    case Num(n) => Ok(n)
    case Other(kind) => Err(UnsupportedExpressionElement(kind))
  }

  /** `evaluate`, from the tree `ast.parse(expression, mode="eval")` returns:
      the body yields a value only if it is built from supported nodes, and a
      body built from them fails only arithmetically. */
  function Evaluate(tree: Expression): (r: Result<int>)
    ensures r.Ok? ==> Supported(tree.body)
    ensures Supported(tree.body) && r.Err? ==> r.error.IsArithmetic()
  {
    Eval(tree.body)
  }
}
