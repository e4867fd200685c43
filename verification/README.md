# Arithmetic expression evaluator — a Dafny model

This project models the evaluator of the command-line calculator in
`calculator.py`. The model covers three parts:

- `_OPERATORS`, the table from seven binary operator classes of Python's `ast`
  module to functions of the `operator` module;
- `_eval_node`, the recursive walk over an expression tree;
- `evaluate`, which hands the body of the parsed tree to `_eval_node`.

The model takes an already-built tree as input. It has four modules:

- `PyArith` (`py_arith.dfy`) defines Python's integer `//`, `%` and `**` on top of
  Dafny's Euclidean `/` and `%`. It proves the identities that section 6.7 of
  the Python Language Reference ("Binary arithmetic operations") uses to
  define floor division and modulo, and proves that those identities
  determine the results.
- `Ast` (`ast.dfy`) defines the node and operator classes the evaluator can
  meet, including the ones it rejects. This makes each of the three
  `ValueError` branches a real case.
- `Calculator` (`calculator.dfy`) holds the operator table `Operators`, the
  operator functions `Apply`, the evaluator `Eval` (returning a `Result`) and
  `Evaluate`.
- `CalculatorProperties` (`calculator_properties.dfy`) holds the lemmas:
  - how each kind of node evaluates;
  - all-or-nothing failure;
  - the order in which errors are reported, stated through `Nodes(e)`. This
    is the post-order list of the nodes `_eval_node` visits. The reported
    error is the error of the first node in that list that fails, and that
    node's operands succeeded;
  - sample trees the parser builds for familiar inputs.

Values are Python ints. Python ints are unbounded, so the model uses Dafny
`int` with no wrap-around. Results outside the model are errors:

- `Err(FloatResult(..))` marks a float value or a float-conversion error,
  both outside the model. It covers true division by a nonzero divisor and
  `**` with a negative exponent. In Python these give a float, or raise
  `OverflowError`. `/` raises it when the quotient is beyond the float range
  (`10 ** 400 / 1`, while `10 ** 400 / 10 ** 399` is `10.0`). `**` with a
  negative exponent raises it when an operand is beyond the float range,
  that is, of magnitude at least 2^1024 - 2^970 (`DoubleOverflowBound`), for
  example `(10 ** 400) ** -1` or `0 ** -10 ** 400`.
- `0 ** b` for a negative `b` within the float range raises
  `ZeroDivisionError` in Python, so it is `Err(ZeroDivision)`. The same
  holds for `/`, `//` and `%` with a zero right operand.

`_eval_node` checks node and operator classes at run time and raises
`ValueError` in three places (calculator.py:23, :31, :34). The model keeps
those three branches as `UnsupportedOperator`, `UnsupportedUnaryOperator`
and `UnsupportedExpressionElement`.

The lemmas `LiteralEvaluatesToItself` through `UnsupportedElementRejected`
state, one node kind at a time, the equations `_eval_node` follows; they
follow directly from `Eval`'s definition. The proofs about whole trees are
`AllOrNothing`, `EvaluatedNodeSucceeds`, `FirstFailureIsReported`,
`UnsupportedErrorOrigin` and `RingExprAlwaysEvaluates`, and the arithmetic
proofs are in `PyArith`.

## Model

| member | source | states |
|---|---|---|
| PyArith.FloorDiv | calculator.py:10 | `a // b` is the floor of the quotient: `b*q <= a < b*q + b` for a positive divisor, and the mirrored bounds for a negative one |
| PyArith.Mod | calculator.py:11 | `a % b` lies in `[0, b)` for a positive divisor and in `(b, 0]` for a negative one |
| PyArith.DivModIdentities | calculator.py:10-11 | for `b != 0`: `a == b*(a//b) + a%b`; `a%b` is zero or has the sign of `b`; and `abs(a%b) < abs(b)` |
| PyArith.DivModUnique | calculator.py:10-11 | any `q`, `r` meeting those three identities equal `a//b` and `a%b`, so the identities define Python's operators |
| PyArith.FloorDivIsFloorOfQuotient | calculator.py:10 | `a // b` equals the floor of the exact real quotient `a / b` |
| PyArith.Power | calculator.py:12 | `**` with a non-negative exponent: the zeroth power is 1 (including `0 ** 0`), the first power is the base, zero to a positive power is 0, and a positive base gives a positive power |
| PyArith.PowerAdd | calculator.py:12 | integer `**` with non-negative exponents obeys `x**(m+n) == x**m * x**n` |
| Calculator.Apply | calculator.py:5-13 | an operator function yields an int exactly for `+`, `-`, `*`, for `//` and `%` with a nonzero divisor, and for `**` with a non-negative exponent; it raises `ZeroDivisionError` exactly for `/`, `//`, `%` with a zero right operand and for zero raised to a negative exponent within the float range; it leaves the integers exactly for `/` with a nonzero divisor and for a negative exponent whose base is nonzero or whose magnitude is beyond the float range |
| Calculator.Eval | calculator.py:16-34 | a tree that evaluates to a value contains only numbers, unary `+`/`-` and table operators; a tree of only those fails only with a division-by-zero or a float result |
| Calculator.Evaluate | calculator.py:37-40 | evaluating a parsed tree yields a value only if its body holds only supported nodes, and a body of supported nodes fails only with a division by zero or a float result |
| CalculatorProperties.LiteralEvaluatesToItself | calculator.py:32-33 | a number node evaluates to exactly its stored value |
| CalculatorProperties.UnaryPlusIsIdentity | calculator.py:25-28 | unary plus gives back the operand's result unchanged, value or error |
| CalculatorProperties.UnaryMinusNegates | calculator.py:25-30 | unary minus negates a successful operand's value and passes an operand's error on |
| CalculatorProperties.DoubleNegation | calculator.py:25-30 | `-(-e)` has the same result as `e` |
| CalculatorProperties.BinaryAppliesTableOperator | calculator.py:18-24 | a binary node whose operator is in the table and whose operands succeed yields the table function applied to (left value, right value) |
| CalculatorProperties.TableOperators | calculator.py:5-13 | the table `Calculator.Operators` holds exactly seven operator classes: Add, Sub, Mult, Div, FloorDiv, Mod, Pow |
| CalculatorProperties.LeftErrorReportedFirst | calculator.py:19 | if the left operand fails, its error is reported, whatever the operator and the right operand |
| CalculatorProperties.RightErrorReportedNext | calculator.py:19-20 | if the left operand succeeds and the right fails, the right one's error is reported, whatever the operator |
| CalculatorProperties.UnsupportedOperatorAfterOperands | calculator.py:19-23 | an operator outside the table never yields a value; it is reported as `Unsupported operator` with its class name only when both operands succeed, and an operand's error wins otherwise |
| CalculatorProperties.UnsupportedUnaryAfterOperand | calculator.py:26-31 | a unary operator other than `+`/`-` is reported as `Unsupported unary operator` after its operand succeeds; a failing operand's error wins |
| CalculatorProperties.UnsupportedElementRejected | calculator.py:34 | any other node class is rejected as `Unsupported expression element` with its class name |
| CalculatorProperties.AllOrNothing | calculator.py:18-34 | a tree yields a value exactly when every node evaluated in it yields one; no failure is hidden and no partial value escapes |
| CalculatorProperties.EvaluatedNodeSucceeds | calculator.py:18-26 | in a tree that yields a value, every node visited during evaluation yields a value |
| CalculatorProperties.FirstFailureIsReported | calculator.py:18-34 | the reported error is that of the first failing node in evaluation order (left subtree, right subtree, node); all earlier nodes succeed, and that node's own operands succeed |
| CalculatorProperties.UnsupportedErrorOrigin | calculator.py:21-34 | each "unsupported" error comes from a visited node whose operands succeeded: a binary node with an operator outside the table, a unary node with neither `+` nor `-`, or a node of another class, named in the error |
| CalculatorProperties.RingExprAlwaysEvaluates | calculator.py:5-8 | a tree of numbers, unary `+`/`-`, `+`, `-` and `*` always yields a value |
| CalculatorProperties.RingOperatorsAreIntArithmetic | calculator.py:6-8 | for all ints `a`, `b`, the table's `+`, `-` and `*` yield exactly `a + b`, `a - b` and `a * b` |
| CalculatorProperties.FloorDivAndModMeetPythonIdentities | calculator.py:9-11 | the table's `/`, `//` and `%` raise `ZeroDivisionError` on a zero divisor; otherwise `//` and `%` succeed and meet Python's three identities, and `//` is the floor of the real quotient |
| CalculatorProperties.PowMeetsExponentLaw | calculator.py:12 | the table's `**` yields an int for every non-negative exponent, with `a ** 0 == 1`, `a ** 1 == a` and `a ** (m + n) == a ** m * a ** n`, which together fix every non-negative power |
| CalculatorProperties.ZeroToNegativePower | calculator.py:12 | zero to a negative exponent raises `ZeroDivisionError` when the exponent is within the float range (so `0 ** -1` does), and is a float-conversion `OverflowError` (`FloatResult`) when it is beyond it |
| CalculatorProperties.EvaluateGroupingSamples | calculator.py:37-40 | the trees for `2 + 3 * 4`, `(2 + 3) * 4`, `2 - 3 - 4`, `2 ** 3 ** 2`, `-2 ** 2` evaluate to 14, 20, -5, 512, -4 |
| CalculatorProperties.EvaluateDivisionSamples | calculator.py:37-40 | `7 // 2` is 3, `-7 // 2` is -4, `-7 % 2` is 1; `5 / 0`, `5 // 0`, `5 % 0` raise `ZeroDivisionError`; `4 / 2` is a float |
| CalculatorProperties.EvaluateRejectionSamples | calculator.py:37-40 | `2 << 1`, `not 1` and `x` are rejected as an unsupported operator, unary operator and expression element |

## Left out

- `ast.parse` (calculator.py:39) is CPython's parser, whose code is not part of this model. `Evaluate` takes the parsed `ast.Expression` tree, so precedence, associativity and syntax errors are not modelled; the sample lemmas write the trees the parser builds by hand.
- `main` (calculator.py:43-57) is the interactive loop: the prompt, the `exit`/`quit` check, and printing the result or `Error: <message>`. It is input and output only.
- Floats are not modelled. This covers float literals, the value of true division, `**` with a negative exponent, and the `OverflowError` Python raises when a `/` quotient, or an operand of `**` with a negative exponent, is beyond the float range. These results become `Err(FloatResult(..))` instead of a value.
- Calculator.Eval: a `FloatResult` stops evaluation like an error, but Python goes on with the float. Everything Python would do after that node is hidden: a value, a later `ZeroDivisionError` (as in `(1/2) // 0`), or a later unsupported-operator `ValueError` (as in `(1/2) << 1`).
- CalculatorProperties.FirstFailureIsReported: its claim about which error Python reports holds only when no intermediate result is a float. With a float intermediate, the model reports `FloatResult` at that node.
- CalculatorProperties.UnsupportedOperatorAfterOperands: speaks about Python only when neither operand produces a float intermediate.
- CalculatorProperties.UnsupportedUnaryAfterOperand: speaks about Python only when the operand produces no float intermediate. For `not (1/2)` the model reports `FloatResult`, while Python raises the unsupported-unary-operator `ValueError`.
- CalculatorProperties.UnsupportedErrorOrigin: speaks about Python only when no intermediate result is a float, since a float operand ends the model's evaluation before the unsupported node is reached.
- Complex literals and boolean constants are not modelled. The version-dependent handling of `ast.Num` versus `ast.Constant` is not modelled either. A number node carries an integer.
- Error messages are reduced to the error kind plus the offending class name. The exact wording is not modelled.
- Python's recursion-depth limit is not modelled, nor the memory a huge `**` result would need.
- `Other` nodes carry only their class name. The evaluator rejects them without looking inside, so their children are not represented.
