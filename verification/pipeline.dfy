/** Lexer and parser together: the text of a printed program lexes to its
    tokens and parses back to the program. */
module Pipeline {
  import opened Base
  import opened Tokens
  import opened Lexer
  import opened LexerProps
  import opened Ast
  import opened Parser
  import opened Printer
  import opened ParserProps

  /** Every name in the tree is an identifier the lexer reads back as one,
      and every literal is non-negative (the lexer has no negative
      literals). */
  predicate LexableTree(e: Expr) {
    match e
    case Absent => true
    case NumberExpr(n) => n >= 0
    case VariableExpr(x) => ValidIdent(x)
    case BinaryExpr(_, l, r) => LexableTree(l) && LexableTree(r)
    case ConditionExpr(c, t, f) => LexableTree(c) && LexableTree(t) && LexableTree(f)
    case CallExpr(f, args) =>
      ValidIdent(f) && forall i | 0 <= i < |args| :: LexableTree(args[i])
    case FunctionExpr(name, ps, body) =>
      ValidIdent(name) && (forall i | 0 <= i < |ps| :: ValidIdent(ps[i])) && LexableTree(body)
    case ReadExpr(x) => ValidIdent(x)
    case WriteExpr(x) => ValidIdent(x)
  }

  lemma LexableConcat(a: seq<Token>, b: seq<Token>)
    requires AllLexable(a) && AllLexable(b)
    ensures AllLexable(a + b)
  {
    forall i | 0 <= i < |a + b| ensures Lexable((a + b)[i]) {
      if i >= |a| {
        assert (a + b)[i] == b[i - |a|];
      }
    }
  }

  lemma {:induction false} PrintLexable(e: Expr)
    requires PrintableExpr(e) && LexableTree(e)
    ensures AllLexable(Print(e))
    decreases e, 1
  {
    match e
    case NumberExpr(n) =>
    case VariableExpr(x) =>
    case BinaryExpr(op, l, r) =>
      BinaryLexable(e);
    case ConditionExpr(c, t, f) =>
      ConditionLexable(e);
    case CallExpr(f, args) =>
      if args != [] {
        ArgsLexable(args);
        LexableConcat([Ident(f), LParen], PrintArgs(args));
        LexableConcat([Ident(f), LParen] + PrintArgs(args), [RParen]);
      }
    case FunctionExpr(name, ps, body) =>
      FunctionLexable(e);
    case ReadExpr(x) =>
    case WriteExpr(x) =>
  }

  lemma {:induction false} BinaryLexable(e: Expr)
    requires e.BinaryExpr? && PrintableExpr(e) && LexableTree(e)
    ensures AllLexable(Print(e))
    decreases e, 0
  {
    var P := OpPrec(e.op);
    OperandLexable(e.lhs, P, false);
    OperandLexable(e.rhs, P, true);
    LexableConcat(Operand(e.lhs, P, false), [OpToken(e.op)]);
    LexableConcat(Operand(e.lhs, P, false) + [OpToken(e.op)], Operand(e.rhs, P, true));
  }

  lemma {:induction false} ConditionLexable(e: Expr)
    requires e.ConditionExpr? && PrintableExpr(e) && LexableTree(e)
    ensures AllLexable(Print(e))
    decreases e, 0
  {
    var pc, pt, pf := Print(e.cond), Print(e.thenBranch), Print(e.elseBranch);
    PrintLexable(e.cond);
    PrintLexable(e.thenBranch);
    PrintLexable(e.elseBranch);
    LexableConcat([If], pc);
    LexableConcat([If] + pc, [Then]);
    LexableConcat([If] + pc + [Then], pt);
    LexableConcat([If] + pc + [Then] + pt, [Else]);
    LexableConcat([If] + pc + [Then] + pt + [Else], pf);
  }

  lemma {:induction false} FunctionLexable(e: Expr)
    requires e.FunctionExpr? && PrintableExpr(e) && LexableTree(e)
    ensures AllLexable(Print(e))
    decreases e, 0
  {
    var head := [Integer, Function, Ident(e.name), LParen];
    var stmts := if e.body == Absent then [] else PrintStmts(e.body);
    ParamsLexable(e.params);
    if e.body != Absent {
      StmtsLexable(e.body);
    }
    LexableConcat(head, PrintParams(e.params));
    LexableConcat(head + PrintParams(e.params), [RParen, Semi, Begin]);
    LexableConcat(head + PrintParams(e.params) + [RParen, Semi, Begin], stmts);
    LexableConcat(head + PrintParams(e.params) + [RParen, Semi, Begin] + stmts, [End]);
  }

  lemma {:induction false} OperandLexable(e: Expr, p: nat, right: bool)
    requires PrintableExpr(e) && LexableTree(e)
    ensures AllLexable(Operand(e, p, right))
    decreases e, 2
  {
    PrintLexable(e);
    if Wrapped(e, p, right) {
      LexableConcat([LParen], Print(e));
      LexableConcat([LParen] + Print(e), [RParen]);
    }
  }

  lemma {:induction false} ArgsLexable(args: seq<Expr>)
    requires |args| > 0 && forall i | 0 <= i < |args| :: PrintableExpr(args[i]) && LexableTree(args[i])
    ensures AllLexable(PrintArgs(args))
  {
    PrintLexable(args[0]);
    if |args| > 1 {
      var tail := args[1..];
      assert forall i | 0 <= i < |tail| :: tail[i] == args[i + 1];
      ArgsLexable(tail);
      LexableConcat(Print(args[0]), [Comma]);
      LexableConcat(Print(args[0]) + [Comma], PrintArgs(tail));
    }
  }

  lemma {:induction false} ParamsLexable(ps: seq<string>)
    requires forall i | 0 <= i < |ps| :: ValidIdent(ps[i])
    ensures AllLexable(PrintParams(ps))
  {
    if |ps| > 1 {
      assert forall i | 0 <= i < |ps[1..]| :: ps[1..][i] == ps[i + 1];
      ParamsLexable(ps[1..]);
      LexableConcat([Ident(ps[0]), Comma], PrintParams(ps[1..]));
    }
  }

  lemma {:induction false} StmtsLexable(e: Expr)
    requires PrintableStmts(e) && LexableTree(e)
    ensures AllLexable(PrintStmts(e))
    decreases e, 2
  {
    if e.BinaryExpr? && e.op == OpSeq {
      PrintLexable(e.lhs);
      StmtsLexable(e.rhs);
      LexableConcat(Print(e.lhs), [Semi]);
      LexableConcat(Print(e.lhs) + [Semi], PrintStmts(e.rhs));
    } else {
      PrintLexable(e);
    }
  }

  /** A printed statement list, spelled out as text, lexes and parses back
      to the same tree, and parsing ends at the end of the input. */
  lemma ProgramRoundTrip(e: Expr)
    requires PrintableStmts(e) && LexableTree(e)
    ensures var toks := PrintStmts(e);
            AllLexable(toks) &&
            Tokenize(Unlex(toks), 0) == Stream(toks, AtEof) &&
            ParseExpressions(Tokenize(Unlex(toks), 0)) == Ok(Parsed(e, Stream([], AtEof)))
  {
    ProgramLexes(e);
    ProgramParses(e);
  }

  /** The text of a printed statement list lexes to its tokens. */
  lemma ProgramLexes(e: Expr)
    requires PrintableStmts(e) && LexableTree(e)
    ensures AllLexable(PrintStmts(e)) && Tokenize(Unlex(PrintStmts(e)), 0) == Stream(PrintStmts(e), AtEof)
  {
    StmtsLexable(e);
    LexUnlex(PrintStmts(e));
  }

  /** The tokens of a printed statement list parse back to it, up to the
      end of the input. */
  lemma ProgramParses(e: Expr)
    requires PrintableStmts(e)
    ensures ParseExpressions(Stream(PrintStmts(e), AtEof)) == Ok(Parsed(e, Stream([], AtEof)))
  {
    var done := Stream([], AtEof);
    StmtsRoundTrip(e, done);
    assert Join(PrintStmts(e), done) == Stream(PrintStmts(e), AtEof);
  }
}
