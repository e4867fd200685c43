/**
  What the evaluator of calculator.py promises: how each kind of node
  evaluates, that failures are all-or-nothing, in which order errors are
  reported, and that the table's `//` and `%` are Python's.
 */
module CalculatorProperties {
  import opened Ast
  import opened Calculator
  import PyArith

  // ---------------------------------------------------------------------
  // One node at a time
  // ---------------------------------------------------------------------

  /** A number evaluates to exactly its value. */
  lemma LiteralEvaluatesToItself(n: int)
    ensures Eval(Num(n)) == Ok(n)
  {
  }

  /** Unary plus is the identity, on values and on errors alike. */
  lemma UnaryPlusIsIdentity(e: Expr)
    ensures Eval(UnaryOp(UAdd, e)) == Eval(e)
  {
  }

  /** Unary minus negates the operand's value and passes its error on. */
  lemma UnaryMinusNegates(e: Expr)
    ensures Eval(e).Ok? ==> Eval(UnaryOp(USub, e)) == Ok(-Eval(e).value)
    ensures Eval(e).Err? ==> Eval(UnaryOp(USub, e)) == Err(Eval(e).error)
  {
  }

  /** Negating twice gives back the operand's result, value or error. */
  lemma DoubleNegation(e: Expr)
    ensures Eval(UnaryOp(USub, UnaryOp(USub, e))) == Eval(e)
  {
    UnaryMinusNegates(e);
    UnaryMinusNegates(UnaryOp(USub, e));
  }

  /** A binary node with a table operator and successful operands applies
      the operator's function to the left value and the right value. */
  lemma BinaryAppliesTableOperator(left: Expr, op: BinaryOperator, right: Expr)
    requires op in Operators
    requires Eval(left).Ok? && Eval(right).Ok?
    ensures Eval(BinOp(left, op, right)) == Apply(Operators[op], Eval(left).value, Eval(right).value)
  {
  }

  /** The table holds exactly the seven arithmetic operator classes. */
  lemma TableOperators(op: BinaryOperator)
    ensures op in Operators <==> op in {Add, Sub, Mult, Div, FloorDiv, Mod, Pow}
    ensures |Operators| == 7
  {
    assert Operators.Keys == {Add, Sub, Mult, Div, FloorDiv, Mod, Pow};
  }

  /** The left operand is evaluated first: its error is the one reported,
      whatever the operator and the right operand. */
  lemma LeftErrorReportedFirst(left: Expr, op: BinaryOperator, right: Expr)
    requires Eval(left).Err?
    ensures Eval(BinOp(left, op, right)) == Err(Eval(left).error)
  {
  }

  /** Once the left operand succeeds, a failing right operand's error is
      reported, whatever the operator. */
  lemma RightErrorReportedNext(left: Expr, op: BinaryOperator, right: Expr)
    requires Eval(left).Ok? && Eval(right).Err?
    ensures Eval(BinOp(left, op, right)) == Err(Eval(right).error)
  {
  }

  /** An operator outside the table never yields a value. Both operands are
      evaluated before the operator is looked up, so an operand's error wins
      over the unsupported operator, which is reported only when both
      operands succeed. */
  lemma UnsupportedOperatorAfterOperands(left: Expr, op: BinaryOperator, right: Expr)
    requires op !in Operators
    ensures Eval(BinOp(left, op, right)).Err?
    ensures Eval(left).Ok? && Eval(right).Ok? ==>
      Eval(BinOp(left, op, right)) == Err(UnsupportedOperator(op.Name()))
    ensures Eval(left).Err? ==> Eval(BinOp(left, op, right)) == Err(Eval(left).error)
    ensures Eval(left).Ok? && Eval(right).Err? ==> Eval(BinOp(left, op, right)) == Err(Eval(right).error)
  {
  }

  /** A unary operator other than `+` and `-` never yields a value; the
      operand is evaluated first, and only its success lets the operator be
      reported as unsupported. */
  lemma UnsupportedUnaryAfterOperand(op: UnaryOperator, e: Expr)
    requires op != UAdd && op != USub
    ensures Eval(e).Ok? ==> Eval(UnaryOp(op, e)) == Err(UnsupportedUnaryOperator(op.Name()))
    ensures Eval(e).Err? ==> Eval(UnaryOp(op, e)) == Err(Eval(e).error)
  {
  }

  /** Any other node class is rejected by its class name. */
  lemma UnsupportedElementRejected(kind: string)
    ensures Eval(Other(kind)) == Err(UnsupportedExpressionElement(kind))
  {
  }

  // ---------------------------------------------------------------------
  // Whole trees
  // ---------------------------------------------------------------------

  /** The nodes `_eval_node` is called on, in the order those calls return
      when none fails: the operand subtrees left to right, then the node
      itself. An `Other` node's children are never visited. */
  function Nodes(e: Expr): (s: seq<Expr>)
    ensures |s| > 0 && s[|s| - 1] == e
  {
    match e
    case BinOp(left, _, right) => Nodes(left) + Nodes(right) + [e]
    case UnaryOp(_, operand) => Nodes(operand) + [e]
    case Num(_) => [e]
    case Other(_) => [e]
  }

  /** The operands of `e`, if it has any, all evaluate successfully. */
  predicate OperandsSucceed(e: Expr)
  {
    match e
    case BinOp(left, _, right) => Eval(left).Ok? && Eval(right).Ok?
    case UnaryOp(_, operand) => Eval(operand).Ok?
    case Num(_) => true
    case Other(_) => true
  }

  /** All-or-nothing: a tree yields a value exactly when every node it
      evaluates yields one, so no failure anywhere is ever hidden. The `<==`
      direction holds by definition, since the tree itself is the last of
      its nodes; the content is `==>`, proved by `EvaluatedNodeSucceeds`. */
  lemma AllOrNothing(e: Expr)
    ensures Eval(e).Ok? <==> forall k :: 0 <= k < |Nodes(e)| ==> Eval(Nodes(e)[k]).Ok?
  {
    if Eval(e).Ok? {
      forall k | 0 <= k < |Nodes(e)|
        ensures Eval(Nodes(e)[k]).Ok?
      {
        EvaluatedNodeSucceeds(e, k);
      }
    } else {
      var last := |Nodes(e)| - 1;
      assert Nodes(e)[last] == e;
      assert !Eval(Nodes(e)[last]).Ok?;
    }
  }

  lemma {:induction false} EvaluatedNodeSucceeds(e: Expr, k: nat)
    requires Eval(e).Ok? && k < |Nodes(e)|
    ensures Eval(Nodes(e)[k]).Ok?
  {
    match e
    case BinOp(left, _, right) =>
      var nl, nr := Nodes(left), Nodes(right);
      assert Nodes(e) == nl + nr + [e];
      if k < |nl| {
        assert Nodes(e)[k] == nl[k];
        EvaluatedNodeSucceeds(left, k);
      } else if k < |nl| + |nr| {
        assert Nodes(e)[k] == nr[k - |nl|];
        EvaluatedNodeSucceeds(right, k - |nl|);
      }
    case UnaryOp(_, operand) =>
      var no := Nodes(operand);
      assert Nodes(e) == no + [e];
      if k < |no| {
        assert Nodes(e)[k] == no[k];
        EvaluatedNodeSucceeds(operand, k);
      }
    case Num(_) =>
  }

  /** Error order: the error reported for a tree is the error of the first
      node, in evaluation order, that fails; every node before it succeeds,
      and its own operands succeed, so the failure arises at that node. */
  lemma {:induction false} FirstFailureIsReported(e: Expr) returns (i: nat)
    requires Eval(e).Err?
    ensures i < |Nodes(e)|
    ensures Eval(Nodes(e)[i]) == Eval(e)
    ensures forall k :: 0 <= k < i ==> Eval(Nodes(e)[k]).Ok?
    ensures OperandsSucceed(Nodes(e)[i])
  {
    match e
    case BinOp(left, _, right) =>
      var nl, nr := Nodes(left), Nodes(right);
      assert Nodes(e) == nl + nr + [e];
      if Eval(left).Err? {
        i := FirstFailureIsReported(left);
        assert Nodes(e)[i] == nl[i];
        forall k | 0 <= k < i
          ensures Eval(Nodes(e)[k]).Ok?
        {
          assert Nodes(e)[k] == nl[k];
        }
      } else if Eval(right).Err? {
        var j := FirstFailureIsReported(right);
        i := |nl| + j;
        assert Nodes(e)[i] == nr[j];
        forall k | 0 <= k < i
          ensures Eval(Nodes(e)[k]).Ok?
        {
          if k < |nl| {
            assert Nodes(e)[k] == nl[k];
            EvaluatedNodeSucceeds(left, k);
          } else {
            assert Nodes(e)[k] == nr[k - |nl|];
          }
        }
      } else {
        i := |nl| + |nr|;
        forall k | 0 <= k < i
          ensures Eval(Nodes(e)[k]).Ok?
        {
          if k < |nl| {
            assert Nodes(e)[k] == nl[k];
            EvaluatedNodeSucceeds(left, k);
          } else {
            assert Nodes(e)[k] == nr[k - |nl|];
            EvaluatedNodeSucceeds(right, k - |nl|);
          }
        }
      }
    case UnaryOp(_, operand) =>
      var no := Nodes(operand);
      assert Nodes(e) == no + [e];
      if Eval(operand).Err? {
        i := FirstFailureIsReported(operand);
        assert Nodes(e)[i] == no[i];
        forall k | 0 <= k < i
          ensures Eval(Nodes(e)[k]).Ok?
        {
          assert Nodes(e)[k] == no[k];
        }
      } else {
        i := |no|;
        forall k | 0 <= k < i
          ensures Eval(Nodes(e)[k]).Ok?
        {
          assert Nodes(e)[k] == no[k];
          EvaluatedNodeSucceeds(operand, k);
        }
      }
    case Other(_) =>
      i := 0;
  }

  /** Where each "unsupported" error comes from: a binary node whose operator
      is outside the table, a unary node whose operator is neither `+` nor
      `-`, or a node of another class, in each case with operands that
      evaluated successfully. */
  lemma {:induction false} UnsupportedErrorOrigin(e: Expr) returns (s: Expr)
    requires Eval(e).Err? && !Eval(e).error.IsArithmetic()
    ensures s in Nodes(e) && OperandsSucceed(s) && Eval(s) == Eval(e)
    ensures Eval(e).error.UnsupportedOperator? ==>
      s.BinOp? && s.op !in Operators && Eval(e).error.name == s.op.Name()
    ensures Eval(e).error.UnsupportedUnaryOperator? ==>
      s.UnaryOp? && s.unaryOp != UAdd && s.unaryOp != USub && Eval(e).error.name == s.unaryOp.Name()
    ensures Eval(e).error.UnsupportedExpressionElement? ==>
      s.Other? && Eval(e).error.name == s.kind
  {
    var i := FirstFailureIsReported(e);
    s := Nodes(e)[i];
  }

  /** Trees of numbers, unary `+` and `-`, `+`, `-` and `*` always evaluate. */
  predicate RingExpr(e: Expr)
  {
    match e
    case BinOp(left, op, right) => op in {Add, Sub, Mult} && RingExpr(left) && RingExpr(right)
    case UnaryOp(op, operand) => (op == UAdd || op == USub) && RingExpr(operand)
    case Num(_) => true
    case Other(_) => false
  }

  lemma {:induction false} RingExprAlwaysEvaluates(e: Expr)
    requires RingExpr(e)
    ensures Eval(e).Ok?
  {
    match e
    case BinOp(left, _, right) =>
      RingExprAlwaysEvaluates(left);
      RingExprAlwaysEvaluates(right);
    case UnaryOp(_, operand) =>
      RingExprAlwaysEvaluates(operand);
    case Num(_) =>
  }

  // ---------------------------------------------------------------------
  // The table's arithmetic operators
  // ---------------------------------------------------------------------

  /** The table's `+`, `-` and `*` are int addition, subtraction and
      multiplication, on every pair of ints. */
  lemma RingOperatorsAreIntArithmetic(a: int, b: int)
    ensures Apply(Operators[Add], a, b) == Ok(a + b)
    ensures Apply(Operators[Sub], a, b) == Ok(a - b)
    ensures Apply(Operators[Mult], a, b) == Ok(a * b)
  {
  }

  /** For a nonzero divisor, the table's `//` and `%` both succeed and meet
      Python's identities: `a == b * (a // b) + a % b`, the remainder is zero
      or has the divisor's sign, and it is smaller than the divisor in
      magnitude; the quotient is the floor of the exact quotient. With a zero
      divisor, `/`, `//` and `%` raise `ZeroDivisionError`. */
  lemma FloorDivAndModMeetPythonIdentities(a: int, b: int)
    ensures b == 0 ==> Apply(Operators[Div], a, b) == Err(ZeroDivision)
    ensures b == 0 ==> Apply(Operators[FloorDiv], a, b) == Err(ZeroDivision)
    ensures b == 0 ==> Apply(Operators[Mod], a, b) == Err(ZeroDivision)
    ensures b != 0 ==>
      && Apply(Operators[FloorDiv], a, b).Ok?
      && Apply(Operators[Mod], a, b).Ok?
      && var q, r := Apply(Operators[FloorDiv], a, b).value, Apply(Operators[Mod], a, b).value;
      && a == b * q + r
      && (r == 0 || (r > 0 <==> b > 0))
      && PyArith.Abs(r) < PyArith.Abs(b)
      && q == ((a as real) / (b as real)).Floor
  {
    if b != 0 {
      PyArith.DivModIdentities(a, b);
      PyArith.FloorDivIsFloorOfQuotient(a, b);
    }
  }

  /** The table's `**` on a non-negative exponent yields an int: `a ** 0` is
      1, `a ** 1` is `a`, and the exponent law `a ** (m + n) == a ** m * a ** n`
      holds, which together fix every non-negative power. */
  lemma {:induction false} PowMeetsExponentLaw(a: int, m: nat, n: nat)
    ensures Apply(Operators[Pow], a, 0) == Ok(1)
    ensures Apply(Operators[Pow], a, 1) == Ok(a)
    ensures Apply(Operators[Pow], a, m).Ok? && Apply(Operators[Pow], a, n).Ok?
    ensures Apply(Operators[Pow], a, m + n).Ok?
    ensures Apply(Operators[Pow], a, m + n).value ==
      Apply(Operators[Pow], a, m).value * Apply(Operators[Pow], a, n).value
  {
    PyArith.PowerAdd(a, m, n);
  }

  // ---------------------------------------------------------------------
  // `evaluate` on trees the parser produces
  // ---------------------------------------------------------------------

  /** Results on the trees Python's parser builds for sample inputs with
      precedence, associativity and unary minus: `2 + 3 * 4`, `(2 + 3) * 4`,
      `2 - 3 - 4`, `2 ** 3 ** 2` and `-2 ** 2`. */
  lemma EvaluateGroupingSamples()
    ensures Evaluate(Expression(BinOp(Num(2), Add, BinOp(Num(3), Mult, Num(4))))) == Ok(14)
    ensures Evaluate(Expression(BinOp(BinOp(Num(2), Add, Num(3)), Mult, Num(4)))) == Ok(20)
    ensures Evaluate(Expression(BinOp(BinOp(Num(2), Sub, Num(3)), Sub, Num(4)))) == Ok(-5)
    ensures Evaluate(Expression(BinOp(Num(2), Pow, BinOp(Num(3), Pow, Num(2))))) == Ok(512)
    ensures Evaluate(Expression(UnaryOp(USub, BinOp(Num(2), Pow, Num(2))))) == Ok(-4)
  {
    assert PyArith.Power(3, 2) == 9;
    assert PyArith.Power(2, 9) == 512;
  }

  /** Division samples: `7 // 2`, `-7 // 2`, `-7 % 2`, `5 / 0`, `5 // 0`,
      `5 % 0` and `4 / 2`, whose value is the float 2.0. */
  lemma EvaluateDivisionSamples()
    ensures Evaluate(Expression(BinOp(Num(7), FloorDiv, Num(2)))) == Ok(3)
    ensures Evaluate(Expression(BinOp(UnaryOp(USub, Num(7)), FloorDiv, Num(2)))) == Ok(-4)
    ensures Evaluate(Expression(BinOp(UnaryOp(USub, Num(7)), Mod, Num(2)))) == Ok(1)
    ensures Evaluate(Expression(BinOp(Num(5), Div, Num(0)))) == Err(ZeroDivision)
    ensures Evaluate(Expression(BinOp(Num(5), FloorDiv, Num(0)))) == Err(ZeroDivision)
    ensures Evaluate(Expression(BinOp(Num(5), Mod, Num(0)))) == Err(ZeroDivision)
    ensures Evaluate(Expression(BinOp(Num(4), Div, Num(2)))).Err?
    ensures Evaluate(Expression(BinOp(Num(4), Div, Num(2)))).error.FloatResult?
  {
  }

  /** Negative powers of zero: `0 ** -1` raises `ZeroDivisionError`, while an
      exponent too large in magnitude for a double, such as `-10 ** 400`, makes
      float `pow` raise `OverflowError` before it looks at the zero base. */
  lemma ZeroToNegativePower(b: int)
    requires b < 0
    ensures -DoubleOverflowBound < b ==> Apply(Operators[Pow], 0, b) == Err(ZeroDivision)
    ensures b <= -DoubleOverflowBound ==> Apply(Operators[Pow], 0, b) == Err(FloatResult("pow"))
    ensures Apply(Operators[Pow], 0, -1) == Err(ZeroDivision)
  {
  }

  /** Rejection samples: `2 << 1`, `not 1` and `x`. */
  lemma EvaluateRejectionSamples()
    ensures Evaluate(Expression(BinOp(Num(2), LShift, Num(1)))) == Err(UnsupportedOperator("LShift"))
    ensures Evaluate(Expression(UnaryOp(Not, Num(1)))) == Err(UnsupportedUnaryOperator("Not"))
    ensures Evaluate(Expression(Other("Name"))) == Err(UnsupportedExpressionElement("Name"))
  {
  }
}
