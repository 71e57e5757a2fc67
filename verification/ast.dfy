/** The abstract syntax tree of the toy language (Interpreter/test.cpp,
    `ExprAST` and its subclasses). The C++ tree uses `unique_ptr` children
    that can be null when a parse step failed; `Absent` is that null. */
module Ast {
  import opened Base

  /** The operator codes a `BinaryExprAST` can carry: the ten operators of
      the precedence table and `;` for statement sequencing. */
  datatype BinOp =
    | OpSeq | OpAssign
    | OpNeq | OpEq | OpLess | OpGreater | OpLe | OpGe
    | OpMul | OpPlus | OpMinus

  predicate IsArith(op: BinOp) { op.OpMul? || op.OpPlus? || op.OpMinus? }
  predicate IsCompare(op: BinOp) {
    op.OpNeq? || op.OpEq? || op.OpLess? || op.OpGreater? || op.OpLe? || op.OpGe?
  }

  datatype Expr =
    | Absent
    | NumberExpr(value: Int32)
    | VariableExpr(name: string)
    | BinaryExpr(op: BinOp, lhs: Expr, rhs: Expr)
    | ConditionExpr(cond: Expr, thenBranch: Expr, elseBranch: Expr)
    | CallExpr(callee: string, args: seq<Expr>)
    | FunctionExpr(name: string, params: seq<string>, body: Expr)
    | ReadExpr(name: string)
    | WriteExpr(name: string)

  /** Node count, used as a termination measure. */
  function Size(e: Expr): nat
  {
    match e
    case BinaryExpr(_, l, r) => 1 + Size(l) + Size(r)
    case ConditionExpr(c, t, f) => 1 + Size(c) + Size(t) + Size(f)
    case CallExpr(_, args) => 1 + SizeList(args)
    case FunctionExpr(_, _, body) => 1 + Size(body)
    case _ => 1
  }

  function SizeList(es: seq<Expr>): nat
  {
    if es == [] then 0 else Size(es[0]) + SizeList(es[1..]) + 1
  }
}
