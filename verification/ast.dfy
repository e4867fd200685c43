/**
  The part of Python's `ast` node hierarchy the calculator inspects.

  The evaluator dispatches on the class of each node, so every node class
  and operator class it can meet is a constructor here, including the ones
  it rejects: binary operators outside its table, unary operators other than
  `+` and `-`, and any expression node that is neither a binary operation, a
  unary operation nor a number.
 */
module Ast {

  /** The subclasses of `ast.operator`, the operator of an `ast.BinOp`. */
  datatype BinaryOperator =
    | Add | Sub | Mult | Div | FloorDiv | Mod | Pow
    | MatMult | LShift | RShift | BitOr | BitXor | BitAnd
  {
    /** The class name, as `type(op).__name__` reports it. */
    function Name(): string
    {
      match this
      case Add => "Add"
      case Sub => "Sub"
      case Mult => "Mult"
      case Div => "Div"
      case FloorDiv => "FloorDiv"
      case Mod => "Mod"
      case Pow => "Pow"
      case MatMult => "MatMult"
      case LShift => "LShift"
      case RShift => "RShift"
      case BitOr => "BitOr"
      case BitXor => "BitXor"
      case BitAnd => "BitAnd"
    }
  }

  /** The subclasses of `ast.unaryop`, the operator of an `ast.UnaryOp`. */
  datatype UnaryOperator = UAdd | USub | Not | Invert
  {
    function Name(): string
    {
      match this
      case UAdd => "UAdd"
      case USub => "USub"
      case Not => "Not"
      case Invert => "Invert"
    }
  }

  /** An expression node. `Num` is a numeric literal with an integer value;
      `Other` stands for every other expression class (`Name`, `Call`,
      `Compare`, a string `Constant`, ...), identified by its class name.
      The evaluator never looks inside an `Other` node, so its children are
      not represented. */
  datatype Expr =
    | BinOp(left: Expr, op: BinaryOperator, right: Expr)
    | UnaryOp(unaryOp: UnaryOperator, operand: Expr)
    | Num(n: int)
    | Other(kind: string)

  /** The `ast.Expression` root that `ast.parse(..., mode="eval")` returns. */
  datatype Expression = Expression(body: Expr)
}
