/** A printer from syntax trees back to tokens: the inverse the parser is
    checked against. It puts parentheses exactly where the precedence table
    needs them, and around a conditional used as an operand (its `else`
    part would otherwise take in the operators that follow). */
module Printer {
  import opened Base
  import opened Tokens
  import opened Lexer
  import opened Ast

  function OpToken(op: BinOp): (t: Token)
    requires op != OpSeq
    ensures Prec(t) > 0
  {
    match op
    case OpAssign => Assign
    case OpNeq => Neq
    case OpEq => Eq
    case OpLess => Less
    case OpGreater => Greater
    case OpLe => Le
    case OpGe => Ge
    case OpMul => Mul
    case OpPlus => Plus
    case OpMinus => Minus
  }

  function OpPrec(op: BinOp): nat
    requires op != OpSeq
  {
    Prec(OpToken(op))
  }

  /** Trees the printer handles: no null node (except an empty function
      body) and sequencing only at statement level. */
  predicate PrintableExpr(e: Expr)
    decreases e, 0
  {
    match e
    case Absent => false
    case BinaryExpr(op, l, r) => op != OpSeq && PrintableExpr(l) && PrintableExpr(r)
    case ConditionExpr(c, t, f) => PrintableExpr(c) && PrintableExpr(t) && PrintableExpr(f)
    case CallExpr(_, args) => forall i | 0 <= i < |args| :: PrintableExpr(args[i])
    case FunctionExpr(_, _, body) => body == Absent || PrintableStmts(body)
    case _ => true
  }

  /** A right-nested `;` chain of printable expressions. */
  predicate PrintableStmts(e: Expr)
    decreases e, 1
  {
    if e.BinaryExpr? && e.op == OpSeq then PrintableExpr(e.lhs) && PrintableStmts(e.rhs)
    else PrintableExpr(e)
  }

  /** Whether an operand of an operator of precedence `p` is printed in
      parentheses: a looser operator on the left, a looser or equally
      loose one on the right, and every conditional. */
  predicate Wrapped(e: Expr, p: nat, right: bool)
  {
    e.ConditionExpr? ||
    (e.BinaryExpr? && e.op != OpSeq &&
     (if right then OpPrec(e.op) <= p else OpPrec(e.op) < p))
  }

  function Print(e: Expr): seq<Token>
    requires PrintableExpr(e)
    decreases e, 0
  {
    match e
    case NumberExpr(n) => [Number(n)]
    case VariableExpr(x) => [Ident(x)]
    case BinaryExpr(op, l, r) =>
      Operand(l, OpPrec(op), false) + [OpToken(op)] + Operand(r, OpPrec(op), true)
    case ConditionExpr(c, t, f) => [If] + Print(c) + [Then] + Print(t) + [Else] + Print(f)
    case CallExpr(f, args) =>
      if args == [] then [Ident(f), LParen, RParen]
      else [Ident(f), LParen] + PrintArgs(args) + [RParen]
    case FunctionExpr(name, ps, body) =>
      [Integer, Function, Ident(name), LParen] + PrintParams(ps) + [RParen, Semi, Begin] +
      (if body == Absent then [] else PrintStmts(body)) + [End]
    case ReadExpr(x) => [Read, LParen, Ident(x), RParen]
    case WriteExpr(x) => [Write, LParen, Ident(x), RParen]
  }

  function Operand(e: Expr, p: nat, right: bool): seq<Token>
    requires PrintableExpr(e)
    decreases e, 1
  {
    if Wrapped(e, p, right) then [LParen] + Print(e) + [RParen] else Print(e)
  }

  function PrintArgs(args: seq<Expr>): seq<Token>
    requires |args| > 0 && forall i | 0 <= i < |args| :: PrintableExpr(args[i])
  {
    if |args| == 1 then Print(args[0]) else Print(args[0]) + [Comma] + PrintArgs(args[1..])
  }

  function PrintParams(ps: seq<string>): seq<Token>
  {
    if ps == [] then []
    else if |ps| == 1 then [Ident(ps[0])]
    else [Ident(ps[0]), Comma] + PrintParams(ps[1..])
  }

  function PrintStmts(e: Expr): seq<Token>
    requires PrintableStmts(e)
    decreases e, 1
  {
    if e.BinaryExpr? && e.op == OpSeq then Print(e.lhs) + [Semi] + PrintStmts(e.rhs)
    else Print(e)
  }
}
