/** The parser inverts the printer: for every printable tree, parsing its
    printed tokens gives back the same tree and stops exactly at the
    following token. Since the printer uses no parentheses beyond those the
    precedence table needs, this pins down how precedence climbing groups
    operators: tighter operators nest to the right, and operators of equal
    precedence associate to the left. */
module ParserProps {
  import opened Base
  import opened Tokens
  import opened Lexer
  import opened Ast
  import opened Parser
  import opened Printer

  /** Tokens `ts` in front of stream `s`. */
  function Join(ts: seq<Token>, s: Stream): Stream {
    Stream(ts + s.toks, s.tail)
  }

  /** Advancing off the last token does not run into a lexical error. */
  predicate Healthy(s: Stream) {
    |s.toks| > 0 || s.tail == AtEof
  }

  /** The current token ends an expression: it is no binary operator and
      does not turn a preceding name into a call. */
  predicate EndsExpr(s: Stream) {
    Healthy(s) && Prec(Cur(s)) == 0 && Cur(s) != LParen
  }

  lemma JoinAssoc(a: seq<Token>, b: seq<Token>, s: Stream)
    ensures Join(a + b, s) == Join(a, Join(b, s))
  {
    assert (a + b) + s.toks == a + (b + s.toks);
  }

  lemma Step(t: Token, ts: seq<Token>, s: Stream)
    requires Healthy(s)
    ensures Cur(Join([t] + ts, s)) == t
    ensures Advance(Join([t] + ts, s)) == Ok(Join(ts, s))
    ensures Healthy(Join(ts, s))
  {
    var all := [t] + ts + s.toks;
    assert all[1..] == ts + s.toks;
  }

  lemma OpOfToken(op: BinOp)
    requires op != OpSeq
    ensures OpOf(OpToken(op)) == op
  {
  }

  /** Tokens an expression can start with. */
  predicate StartsExpr(t: Token) {
    t.Number? || t.Ident? || t == LParen || t == If || t == Integer || t == Read || t == Write
  }

  lemma {:induction false} FirstToken(e: Expr)
    requires PrintableExpr(e)
    ensures |Print(e)| > 0 && StartsExpr(Print(e)[0])
    decreases e
  {
    if e.BinaryExpr? {
      var P := OpPrec(e.op);
      if !Wrapped(e.lhs, P, false) {
        FirstToken(e.lhs);
      }
    }
  }

  lemma {:induction false} FirstStmtToken(e: Expr)
    requires PrintableStmts(e)
    ensures |PrintStmts(e)| > 0 && StartsExpr(PrintStmts(e)[0])
  {
    if e.BinaryExpr? && e.op == OpSeq {
      FirstToken(e.lhs);
    } else {
      FirstToken(e);
    }
  }

  // ---------------------------------------------------------------------
  // The left spine of a binary tree: the first primary the parser reads,
  // and the tokens that follow it.

  /** A left operand printed without parentheses that is itself binary. */
  predicate Hangs(l: Expr, p: nat) {
    l.BinaryExpr? && l.op != OpSeq && !Wrapped(l, p, false)
  }

  function LeftPrim(e: Expr): (r: Expr)
    requires e.BinaryExpr? && PrintableExpr(e)
    ensures PrintableExpr(r) && r != Absent
  {
    if Hangs(e.lhs, OpPrec(e.op)) then LeftPrim(e.lhs) else e.lhs
  }

  function Tail(e: Expr): seq<Token>
    requires e.BinaryExpr? && PrintableExpr(e)
  {
    (if Hangs(e.lhs, OpPrec(e.op)) then Tail(e.lhs) else []) +
    [OpToken(e.op)] + Operand(e.rhs, OpPrec(e.op), true)
  }

  lemma {:induction false} TailHead(e: Expr)
    requires e.BinaryExpr? && PrintableExpr(e)
    ensures |Tail(e)| > 0 && Prec(Tail(e)[0]) >= OpPrec(e.op)
  {
    if Hangs(e.lhs, OpPrec(e.op)) {
      TailHead(e.lhs);
    }
  }

  // ---------------------------------------------------------------------
  // Round trips, by induction on the size of the tree.

  lemma {:induction false} ExprRoundTrip(e: Expr, rest: Stream)
    requires PrintableExpr(e) && EndsExpr(rest)
    ensures ParseExpression(Join(Print(e), rest)) == Ok(Parsed(e, rest))
    decreases Size(e), 3
  {
    if e.BinaryExpr? {
      LeftmostRoundTrip(e, rest);
      ClimbConsumes(1, e, rest);
    } else {
      PrimaryRoundTrip(e, rest);
    }
  }

  lemma {:induction false} StmtsRoundTrip(e: Expr, rest: Stream)
    requires PrintableStmts(e) && EndsExpr(rest) && Cur(rest) != Semi
    ensures ParseExpressions(Join(PrintStmts(e), rest)) == Ok(Parsed(e, rest))
    decreases Size(e), 4
  {
    if e.BinaryExpr? && e.op == OpSeq {
      SeqRoundTrip(e, rest);
    } else {
      ExprRoundTrip(e, rest);
    }
  }

  /** `E ; S`: the first statement ends at the `;`, and the rest is a
      statement list again. */
  lemma {:induction false} SeqRoundTrip(e: Expr, rest: Stream)
    requires e.BinaryExpr? && e.op == OpSeq
    requires PrintableStmts(e) && EndsExpr(rest) && Cur(rest) != Semi
    ensures ParseExpressions(Join(PrintStmts(e), rest)) == Ok(Parsed(e, rest))
    decreases Size(e), 3
  {
    var more := [Semi] + PrintStmts(e.rhs);
    var afterFirst := Join(more, rest);
    assert PrintStmts(e) == Print(e.lhs) + more;
    JoinAssoc(Print(e.lhs), more, rest);
    Step(Semi, PrintStmts(e.rhs), rest);
    ExprRoundTrip(e.lhs, afterFirst);
    StmtsRoundTrip(e.rhs, rest);
    var s := Join(PrintStmts(e), rest);
    assert ParseExpression(s) == Ok(Parsed(e.lhs, afterFirst));
    assert Cur(afterFirst) == Semi;
    assert Advance(afterFirst) == Ok(Join(PrintStmts(e.rhs), rest));
  }

  lemma {:induction false} ParenRoundTrip(e: Expr, rest: Stream)
    requires PrintableExpr(e) && Healthy(rest)
    ensures ParsePrimary(Join([LParen] + Print(e) + [RParen], rest)) == Ok(Parsed(e, rest))
    decreases Size(e), 4
  {
    var s := Join([LParen] + Print(e) + [RParen], rest);
    var closing := Join([RParen], rest);
    var s1 := ParenStream(Print(e), rest);
    ExprRoundTrip(e, closing);
    ParenSteps(s, s1, e, closing, rest);
  }

  /** The tokens of `( E )` in front of `rest`: after the `(` comes `E`,
      and after `E` the `)`, which ends it. */
  lemma ParenStream(pe: seq<Token>, rest: Stream) returns (s1: Stream)
    requires Healthy(rest)
    ensures var s := Join([LParen] + pe + [RParen], rest);
            Cur(s) == LParen && Advance(s) == Ok(s1)
    ensures s1 == Join(pe, Join([RParen], rest))
    ensures EndsExpr(Join([RParen], rest)) && Cur(Join([RParen], rest)) == RParen
    ensures Advance(Join([RParen], rest)) == Ok(rest)
  {
    var inner := pe + [RParen];
    assert [LParen] + pe + [RParen] == [LParen] + inner;
    Step(LParen, inner, rest);
    s1 := Join(inner, rest);
    JoinAssoc(pe, [RParen], rest);
    Step(RParen, [], rest);
    assert [RParen] + [] == [RParen] && Join([], rest) == rest;
  }

  lemma ParenSteps(s: Stream, s1: Stream, e: Expr, r1: Stream, s2: Stream)
    requires Cur(s) == LParen && Advance(s) == Ok(s1)
    requires ParseExpression(s1) == Ok(Parsed(e, r1)) && e != Absent
    requires Cur(r1) == RParen && Advance(r1) == Ok(s2)
    ensures ParsePrimary(s) == Ok(Parsed(e, s2))
  {
  }

  /** Reading the first primary of a binary tree leaves the stream at the
      rest of its left spine. */
  lemma {:induction false} LeftmostRoundTrip(e: Expr, rest: Stream)
    requires e.BinaryExpr? && PrintableExpr(e) && Healthy(rest)
    ensures ParsePrimary(Join(Print(e), rest)) == Ok(Parsed(LeftPrim(e), Join(Tail(e), rest)))
    decreases Size(e), 1
  {
    if Hangs(e.lhs, OpPrec(e.op)) {
      LeftmostHanging(e, rest);
    } else {
      LeftmostOperand(e, rest);
    }
  }

  /** The left operand is itself a bare binary tree: its spine continues. */
  lemma {:induction false} LeftmostHanging(e: Expr, rest: Stream)
    requires e.BinaryExpr? && PrintableExpr(e) && Healthy(rest) && Hangs(e.lhs, OpPrec(e.op))
    ensures ParsePrimary(Join(Print(e), rest)) == Ok(Parsed(LeftPrim(e), Join(Tail(e), rest)))
    decreases Size(e), 0
  {
    var P := OpPrec(e.op);
    var rt := [OpToken(e.op)] + Operand(e.rhs, P, true);
    assert Print(e) == Print(e.lhs) + rt;
    JoinAssoc(Print(e.lhs), rt, rest);
    assert LeftPrim(e) == LeftPrim(e.lhs);
    assert Tail(e) == Tail(e.lhs) + rt;
    LeftmostRoundTrip(e.lhs, Join(rt, rest));
    JoinAssoc(Tail(e.lhs), rt, rest);
  }

  /** The left operand is a primary or parenthesised: it is the first
      primary, and the operator follows it. */
  lemma {:induction false} LeftmostOperand(e: Expr, rest: Stream)
    requires e.BinaryExpr? && PrintableExpr(e) && Healthy(rest) && !Hangs(e.lhs, OpPrec(e.op))
    ensures ParsePrimary(Join(Print(e), rest)) == Ok(Parsed(LeftPrim(e), Join(Tail(e), rest)))
    decreases Size(e), 0
  {
    var P := OpPrec(e.op);
    var rt := [OpToken(e.op)] + Operand(e.rhs, P, true);
    assert Print(e) == Operand(e.lhs, P, false) + rt;
    JoinAssoc(Operand(e.lhs, P, false), rt, rest);
    Step(OpToken(e.op), Operand(e.rhs, P, true), rest);
    assert Tail(e) == rt;
    if Wrapped(e.lhs, P, false) {
      ParenRoundTrip(e.lhs, Join(rt, rest));
    } else {
      PrimaryRoundTrip(e.lhs, Join(rt, rest));
    }
  }

  /** One turn of the climbing loop: the operator `op` and its right
      operand `r`, then the loop goes on with the combined left side. */
  lemma {:induction false} ClimbStep(minPrec: nat, lhs: Expr, op: BinOp, r: Expr, rest: Stream)
    requires op != OpSeq && 1 <= minPrec <= OpPrec(op) && lhs != Absent
    requires PrintableExpr(r) && Healthy(rest) && Cur(rest) != LParen
    requires Prec(Cur(rest)) <= OpPrec(op)
    ensures ParseBinOpRHS(minPrec, lhs, Join([OpToken(op)] + Operand(r, OpPrec(op), true), rest)) ==
            ParseBinOpRHS(minPrec, BinaryExpr(op, lhs, r), rest)
    decreases Size(r), 5
  {
    var P := OpPrec(op);
    var s := Join([OpToken(op)] + Operand(r, P, true), rest);
    var s1 := Join(Operand(r, P, true), rest);
    Step(OpToken(op), Operand(r, P, true), rest);
    if Wrapped(r, P, true) {
      ParenRoundTrip(r, rest);
      ClimbSteps(minPrec, lhs, op, s, s1, r, rest, r, rest);
    } else if r.BinaryExpr? {
      LeftmostRoundTrip(r, rest);
      TailHead(r);
      ClimbConsumes(P + 1, r, rest);
      assert ParseBinOpRHS(P + 1, r, rest) == Ok(Parsed(r, rest));
      ClimbSteps(minPrec, lhs, op, s, s1, LeftPrim(r), Join(Tail(r), rest), r, rest);
    } else {
      PrimaryRoundTrip(r, rest);
      ClimbSteps(minPrec, lhs, op, s, s1, r, rest, r, rest);
    }
  }

  /** One turn of `parseBinOpRHS` over operator `op`, given what the
      right operand's primary and its own climbing yield. */
  lemma ClimbSteps(minPrec: nat, lhs: Expr, op: BinOp, s: Stream, s1: Stream, first: Expr, afterFirst: Stream,
                   r: Expr, rest: Stream)
    requires op != OpSeq && 1 <= minPrec <= OpPrec(op)
    requires Cur(s) == OpToken(op) && Advance(s) == Ok(s1)
    requires ParsePrimary(s1) == Ok(Parsed(first, afterFirst)) && first != Absent
    requires (if OpPrec(op) < Prec(Cur(afterFirst)) then ParseBinOpRHS(OpPrec(op) + 1, first, afterFirst)
              else Ok(Parsed(first, afterFirst))) == Ok(Parsed(r, rest))
    requires r != Absent
    ensures ParseBinOpRHS(minPrec, lhs, s) == ParseBinOpRHS(minPrec, BinaryExpr(op, lhs, r), rest)
  {
    OpOfToken(op);
  }

  /** The climbing loop runs through the whole left spine of `e` and then
      carries on with `e` as its left side. */
  lemma {:induction false} ClimbConsumes(minPrec: nat, e: Expr, rest: Stream)
    requires e.BinaryExpr? && PrintableExpr(e) && 1 <= minPrec <= OpPrec(e.op)
    requires Healthy(rest) && Cur(rest) != LParen && Prec(Cur(rest)) <= OpPrec(e.op)
    ensures ParseBinOpRHS(minPrec, LeftPrim(e), Join(Tail(e), rest)) ==
            ParseBinOpRHS(minPrec, e, rest)
    decreases Size(e), 1
  {
    var P := OpPrec(e.op);
    var rt := [OpToken(e.op)] + Operand(e.rhs, P, true);
    if Hangs(e.lhs, P) {
      assert LeftPrim(e) == LeftPrim(e.lhs);
      assert Tail(e) == Tail(e.lhs) + rt;
      Step(OpToken(e.op), Operand(e.rhs, P, true), rest);
      ClimbConsumes(minPrec, e.lhs, Join(rt, rest));
      JoinAssoc(Tail(e.lhs), rt, rest);
      ClimbStep(minPrec, e.lhs, e.op, e.rhs, rest);
    } else {
      assert Tail(e) == rt;
      ClimbStep(minPrec, e.lhs, e.op, e.rhs, rest);
    }
  }

  lemma {:induction false} PrimaryRoundTrip(e: Expr, rest: Stream)
    requires PrintableExpr(e) && !e.BinaryExpr? && Healthy(rest) && Cur(rest) != LParen
    requires e.ConditionExpr? ==> Prec(Cur(rest)) == 0
    ensures ParsePrimary(Join(Print(e), rest)) == Ok(Parsed(e, rest))
    decreases Size(e), 2
  {
    match e
    case NumberExpr(n) =>
      Step(Number(n), [], rest);
      assert Join([], rest) == rest;
      NumberSteps(Join(Print(e), rest), n, rest);
    case VariableExpr(x) =>
      Step(Ident(x), [], rest);
      assert Join([], rest) == rest;
      VariableSteps(Join(Print(e), rest), x, rest);
    case ReadExpr(x) =>
      ReadWriteRoundTrip(x, true, rest);
    case WriteExpr(x) =>
      ReadWriteRoundTrip(x, false, rest);
    case ConditionExpr(_, _, _) =>
      ConditionRoundTrip(e, rest);
    case CallExpr(_, _) =>
      CallRoundTrip(e, rest);
    case FunctionExpr(_, _, _) =>
      FunctionRoundTrip(e, rest);
  }

  /** `parseNumberExpr` over a number token. */
  lemma NumberSteps(s: Stream, n: Int32, rest: Stream)
    requires Cur(s) == Number(n) && Advance(s) == Ok(rest)
    ensures ParsePrimary(s) == Ok(Parsed(NumberExpr(n), rest))
  {
  }

  /** `parseIdentifierExpr` over a name that no `(` follows. */
  lemma VariableSteps(s: Stream, x: string, rest: Stream)
    requires Cur(s) == Ident(x) && Advance(s) == Ok(rest) && Cur(rest) != LParen
    ensures ParsePrimary(s) == Ok(Parsed(VariableExpr(x), rest))
  {
  }

  lemma ReadWriteRoundTrip(x: string, isRead: bool, rest: Stream)
    requires Healthy(rest)
    ensures var e := if isRead then ReadExpr(x) else WriteExpr(x);
            ParsePrimary(Join(Print(e), rest)) == Ok(Parsed(e, rest))
  {
    var e := if isRead then ReadExpr(x) else WriteExpr(x);
    var kw := if isRead then Read else Write;
    var t3 := [RParen];
    var t2 := [Ident(x)] + t3;
    var t1 := [LParen] + t2;
    assert Print(e) == [kw] + t1;
    Step(kw, t1, rest);
    Step(LParen, t2, rest);
    Step(Ident(x), t3, rest);
    Step(RParen, [], rest);
    assert Join([], rest) == rest;
    ReadWriteSteps(Join(Print(e), rest), Join(t1, rest), Join(t2, rest), x, Join(t3, rest), rest, isRead);
  }

  /** `parseReadAST` and `parseWriteAST` over `read ( x )` and `write ( x )`. */
  lemma ReadWriteSteps(s: Stream, s1: Stream, s2: Stream, x: string, s3: Stream, rest: Stream, isRead: bool)
    requires Cur(s) == (if isRead then Read else Write) && Advance(s) == Ok(s1)
    requires Cur(s1) == LParen && Advance(s1) == Ok(s2)
    requires Cur(s2) == Ident(x) && Advance(s2) == Ok(s3)
    requires Cur(s3) == RParen && Advance(s3) == Ok(rest)
    ensures ParsePrimary(s) == Ok(Parsed(if isRead then ReadExpr(x) else WriteExpr(x), rest))
  {
  }

  lemma {:induction false} ConditionRoundTrip(e: Expr, rest: Stream)
    requires e.ConditionExpr? && PrintableExpr(e) && EndsExpr(rest)
    ensures ParsePrimary(Join(Print(e), rest)) == Ok(Parsed(e, rest))
    decreases Size(e), 1
  {
    var pc, pt, pf := Print(e.cond), Print(e.thenBranch), Print(e.elseBranch);
    var afterThen := pt + ([Else] + pf);
    var afterCond := [Then] + afterThen;
    assert Print(e) == [If] + (pc + afterCond);
    ConditionStream(pc, pt, pf, rest);
    ExprRoundTrip(e.cond, Join(afterCond, rest));
    ExprRoundTrip(e.thenBranch, Join([Else] + pf, rest));
    ExprRoundTrip(e.elseBranch, rest);
    ConditionSteps(Join(Print(e), rest), Join(pc + afterCond, rest), e.cond, Join(afterCond, rest),
                   Join(afterThen, rest), e.thenBranch, Join([Else] + pf, rest), Join(pf, rest),
                   e.elseBranch, rest);
  }

  /** How the stream advances through the keywords of a conditional. */
  lemma ConditionStream(pc: seq<Token>, pt: seq<Token>, pf: seq<Token>, rest: Stream)
    requires Healthy(rest)
    ensures var afterThen := pt + ([Else] + pf);
            var afterCond := [Then] + afterThen;
            var s := Join([If] + (pc + afterCond), rest);
            && Cur(s) == If && Advance(s) == Ok(Join(pc + afterCond, rest))
            && Join(pc + afterCond, rest) == Join(pc, Join(afterCond, rest))
            && Healthy(Join(afterCond, rest)) && Cur(Join(afterCond, rest)) == Then
            && Advance(Join(afterCond, rest)) == Ok(Join(afterThen, rest))
            && Join(afterThen, rest) == Join(pt, Join([Else] + pf, rest))
            && Healthy(Join([Else] + pf, rest)) && Cur(Join([Else] + pf, rest)) == Else
            && Advance(Join([Else] + pf, rest)) == Ok(Join(pf, rest))
  {
    var afterThen := pt + ([Else] + pf);
    var afterCond := [Then] + afterThen;
    Step(If, pc + afterCond, rest);
    JoinAssoc(pc, afterCond, rest);
    Step(Then, afterThen, rest);
    JoinAssoc(pt, [Else] + pf, rest);
    Step(Else, pf, rest);
  }

  /** `parseConditionExpr` over `if C then T else F`, given what the three
      expression parses yield. */
  lemma ConditionSteps(s: Stream, s1: Stream, c: Expr, r1: Stream, s2: Stream, t: Expr, r2: Stream,
                       s3: Stream, f: Expr, rest: Stream)
    requires Cur(s) == If && Advance(s) == Ok(s1) && ParseExpression(s1) == Ok(Parsed(c, r1))
    requires Cur(r1) == Then && Advance(r1) == Ok(s2) && ParseExpression(s2) == Ok(Parsed(t, r2))
    requires Cur(r2) == Else && Advance(r2) == Ok(s3) && ParseExpression(s3) == Ok(Parsed(f, rest))
    ensures ParsePrimary(s) == Ok(Parsed(ConditionExpr(c, t, f), rest))
  {
  }

  lemma {:induction false} CallRoundTrip(e: Expr, rest: Stream)
    requires e.CallExpr? && PrintableExpr(e) && Healthy(rest)
    ensures ParsePrimary(Join(Print(e), rest)) == Ok(Parsed(e, rest))
    decreases Size(e), 1
  {
    if e.args == [] {
      var s := Join(Print(e), rest);
      assert Print(e) == [Ident(e.callee)] + [LParen, RParen];
      assert [LParen] + [RParen] == [LParen, RParen] && [RParen] + [] == [RParen];
      Step(Ident(e.callee), [LParen, RParen], rest);
      Step(LParen, [RParen], rest);
      Step(RParen, [], rest);
      assert Join([], rest) == rest;
      CallNoArgsSteps(s, e.callee, Join([LParen, RParen], rest), Join([RParen], rest), rest);
    } else {
      CallArgsRoundTrip(e, rest);
    }
  }

  lemma CallNoArgsSteps(s: Stream, f: string, s1: Stream, s2: Stream, s3: Stream)
    requires Cur(s) == Ident(f) && Advance(s) == Ok(s1)
    requires Cur(s1) == LParen && Advance(s1) == Ok(s2)
    requires Cur(s2) == RParen && Advance(s2) == Ok(s3)
    ensures ParsePrimary(s) == Ok(Parsed(CallExpr(f, []), s3))
  {
  }

  /** A call with arguments: the name, `(`, then the argument loop. */
  lemma {:induction false} CallArgsRoundTrip(e: Expr, rest: Stream)
    requires e.CallExpr? && e.args != [] && PrintableExpr(e) && Healthy(rest)
    ensures ParsePrimary(Join(Print(e), rest)) == Ok(Parsed(e, rest))
    decreases Size(e), 0
  {
    var inner := PrintArgs(e.args) + [RParen];
    var s1 := Join([LParen] + inner, rest);
    var s2 := Join(inner, rest);
    assert Print(e) == [Ident(e.callee)] + ([LParen] + inner);
    Step(Ident(e.callee), [LParen] + inner, rest);
    Step(LParen, inner, rest);
    FirstToken(e.args[0]);
    assert inner[0] == Print(e.args[0])[0];
    ArgsRoundTrip(e.callee, [], e.args, rest);
    assert [] + e.args == e.args;
    CallSteps(Join(Print(e), rest), e.callee, s1, s2);
  }

  lemma CallSteps(s: Stream, f: string, s1: Stream, s2: Stream)
    requires Cur(s) == Ident(f) && Advance(s) == Ok(s1)
    requires Cur(s1) == LParen && Advance(s1) == Ok(s2) && Cur(s2) != RParen
    ensures ParsePrimary(s) == ParseArgs(f, s2, [])
  {
  }

  /** The argument loop after one argument followed by `)`. */
  lemma ArgsLast(callee: string, s: Stream, done: seq<Expr>, a: Expr, r: Stream, r2: Stream)
    requires ParseExpression(s) == Ok(Parsed(a, r)) && a != Absent
    requires Cur(r) == RParen && Advance(r) == Ok(r2)
    ensures ParseArgs(callee, s, done) == Ok(Parsed(CallExpr(callee, done + [a]), r2))
  {
  }

  /** The argument loop after one argument followed by `,`. */
  lemma ArgsNext(callee: string, s: Stream, done: seq<Expr>, a: Expr, r: Stream, r2: Stream)
    requires ParseExpression(s) == Ok(Parsed(a, r)) && a != Absent
    requires Cur(r) == Comma && Advance(r) == Ok(r2)
    ensures ParseArgs(callee, s, done) == ParseArgs(callee, r2, done + [a])
  {
  }

  lemma {:induction false} ArgsRoundTrip(callee: string, done: seq<Expr>, args: seq<Expr>, rest: Stream)
    requires |args| > 0 && (forall i | 0 <= i < |args| :: PrintableExpr(args[i])) && Healthy(rest)
    ensures ParseArgs(callee, Join(PrintArgs(args) + [RParen], rest), done) ==
            Ok(Parsed(CallExpr(callee, done + args), rest))
    decreases SizeList(args), 9
  {
    if |args| == 1 {
      LastArgRoundTrip(callee, done, args, rest);
    } else {
      var tail := args[1..];
      NextArgRoundTrip(callee, done, args, rest);
      assert forall i | 0 <= i < |tail| :: PrintableExpr(tail[i]) by {
        forall i | 0 <= i < |tail| ensures PrintableExpr(tail[i]) {
          assert tail[i] == args[i + 1];
        }
      }
      ArgsRoundTrip(callee, done + [args[0]], tail, rest);
      assert done + [args[0]] + tail == done + args;
    }
  }

  /** The last argument and the closing `)`. */
  lemma {:induction false} LastArgRoundTrip(callee: string, done: seq<Expr>, args: seq<Expr>, rest: Stream)
    requires |args| == 1 && PrintableExpr(args[0]) && Healthy(rest)
    ensures ParseArgs(callee, Join(PrintArgs(args) + [RParen], rest), done) ==
            Ok(Parsed(CallExpr(callee, done + args), rest))
    decreases SizeList(args), 8
  {
    var s := Join(PrintArgs(args) + [RParen], rest);
    var afterArg := Join([RParen], rest);
    assert s == Join(Print(args[0]), afterArg) by {
      JoinAssoc(Print(args[0]), [RParen], rest);
    }
    Step(RParen, [], rest);
    assert Join([], rest) == rest;
    ExprRoundTrip(args[0], afterArg);
    ArgsLast(callee, s, done, args[0], afterArg, rest);
    assert done + args == done + [args[0]];
  }

  /** An argument followed by `,`: the loop goes on with the rest. */
  lemma {:induction false} NextArgRoundTrip(callee: string, done: seq<Expr>, args: seq<Expr>, rest: Stream)
    requires |args| > 1 && (forall i | 0 <= i < |args| :: PrintableExpr(args[i])) && Healthy(rest)
    ensures ParseArgs(callee, Join(PrintArgs(args) + [RParen], rest), done) ==
            ParseArgs(callee, Join(PrintArgs(args[1..]) + [RParen], rest), done + [args[0]])
    decreases SizeList(args), 8
  {
    var s := Join(PrintArgs(args) + [RParen], rest);
    var more := [Comma] + (PrintArgs(args[1..]) + [RParen]);
    var afterArg := Join(more, rest);
    assert s == Join(Print(args[0]), afterArg) by {
      assert PrintArgs(args) + [RParen] == Print(args[0]) + more;
      JoinAssoc(Print(args[0]), more, rest);
    }
    Step(Comma, PrintArgs(args[1..]) + [RParen], rest);
    ExprRoundTrip(args[0], afterArg);
    ArgsNext(callee, s, done, args[0], afterArg, Join(PrintArgs(args[1..]) + [RParen], rest));
  }

  lemma {:induction false} ParamsRoundTrip(acc: seq<string>, ps: seq<string>, rest: Stream)
    requires |ps| > 0 && Healthy(rest) && Cur(rest) == RParen
    ensures ParseParams(Join(PrintParams(ps), rest), acc) == Ok(Params(acc + ps, rest))
    decreases |ps|, 1
  {
    if |ps| == 1 {
      assert ps == [ps[0]] && PrintParams(ps) == [Ident(ps[0])];
      LastParamRoundTrip(acc, ps[0], rest);
    } else {
      ParamsConsRoundTrip(acc, ps, rest);
    }
  }

  lemma {:induction false} ParamsConsRoundTrip(acc: seq<string>, ps: seq<string>, rest: Stream)
    requires |ps| > 1 && Healthy(rest) && Cur(rest) == RParen
    ensures ParseParams(Join(PrintParams(ps), rest), acc) == Ok(Params(acc + ps, rest))
    decreases |ps|, 0
  {
    var more := PrintParams(ps[1..]);
    var s1 := Join([Comma] + more, rest);
    Step(Ident(ps[0]), [Comma] + more, rest);
    Step(Comma, more, rest);
    assert [Ident(ps[0]), Comma] + more == [Ident(ps[0])] + ([Comma] + more);
    NextParamSteps(Join(PrintParams(ps), rest), ps[0], s1, Join(more, rest), acc);
    ParamsRoundTrip(acc + [ps[0]], ps[1..], rest);
    assert acc + [ps[0]] + ps[1..] == acc + ps;
  }

  lemma LastParamRoundTrip(acc: seq<string>, x: string, rest: Stream)
    requires Healthy(rest) && Cur(rest) == RParen
    ensures ParseParams(Join([Ident(x)], rest), acc) == Ok(Params(acc + [x], rest))
  {
    Step(Ident(x), [], rest);
    assert Join([], rest) == rest;
    LastParamSteps(Join([Ident(x)], rest), x, rest, acc);
  }

  /** The last name of a parameter list, followed by `)`. */
  lemma LastParamSteps(s: Stream, x: string, s1: Stream, acc: seq<string>)
    requires Cur(s) == Ident(x) && Advance(s) == Ok(s1) && Cur(s1) == RParen
    ensures ParseParams(s, acc) == Ok(Params(acc + [x], s1))
  {
  }

  /** A name followed by `,`: the rest of the list is parsed with the name
      appended. */
  lemma NextParamSteps(s: Stream, x: string, s1: Stream, s2: Stream, acc: seq<string>)
    requires Cur(s) == Ident(x) && Advance(s) == Ok(s1) && Cur(s1) == Comma && Advance(s1) == Ok(s2)
    ensures ParseParams(s, acc) == ParseParams(s2, acc + [x])
  {
  }

  lemma {:induction false} FunctionRoundTrip(e: Expr, rest: Stream)
    requires e.FunctionExpr? && PrintableExpr(e) && Healthy(rest)
    ensures ParsePrimary(Join(Print(e), rest)) == Ok(Parsed(e, rest))
    decreases Size(e), 1
  {
    var s := Join(Print(e), rest);
    var s1 := FunctionHeader(e, rest);
    IntegerSteps(s, s1);
    FunctionAfterKeyword(e, rest);
  }

  /** `integer NAME` is a declaration in name only: the keyword is
      dropped and `NAME` parses as it would alone, a variable unless a `(`
      makes it a call. */
  lemma IntegerDeclaration(x: string, rest: Stream)
    requires Healthy(rest)
    ensures ParsePrimary(Join([Integer, Ident(x)], rest)) == ParsePrimary(Join([Ident(x)], rest))
    ensures Cur(rest) != LParen ==> ParsePrimary(Join([Integer, Ident(x)], rest)) == Ok(Parsed(VariableExpr(x), rest))
  {
    var s, s1 := Join([Integer, Ident(x)], rest), Join([Ident(x)], rest);
    assert [Integer, Ident(x)] == [Integer] + [Ident(x)];
    Step(Integer, [Ident(x)], rest);
    Step(Ident(x), [], rest);
    assert Join([], rest) == rest;
    IntegerNameSteps(s, s1);
    if Cur(rest) != LParen {
      LoneName(s1, rest);
    }
  }

  lemma IntegerNameSteps(s: Stream, s1: Stream)
    requires Cur(s) == Integer && Advance(s) == Ok(s1) && Cur(s1).Ident?
    ensures ParsePrimary(s) == ParsePrimary(s1)
  {
  }

  lemma LoneName(s: Stream, rest: Stream)
    requires Cur(s).Ident? && Advance(s) == Ok(rest) && Cur(rest) != LParen
    ensures ParsePrimary(s) == Ok(Parsed(VariableExpr(Cur(s).name), rest))
  {
  }

  lemma IntegerSteps(s: Stream, s1: Stream)
    requires Cur(s) == Integer && Advance(s) == Ok(s1) && Cur(s1) == Function
    ensures ParsePrimary(s) == ParseFunctionExpr(s1)
  {
  }

  /** `integer` is consumed and the stream stands at `function`. */
  lemma FunctionHeader(e: Expr, rest: Stream) returns (s1: Stream)
    requires e.FunctionExpr? && PrintableExpr(e) && Healthy(rest)
    ensures s1 == Join(Print(e)[1..], rest)
    ensures Cur(Join(Print(e), rest)) == Integer
    ensures Advance(Join(Print(e), rest)) == Ok(s1) && Cur(s1) == Function
  {
    var p := Print(e);
    s1 := Join(p[1..], rest);
    assert p == [Integer] + p[1..];
    Step(Integer, p[1..], rest);
    assert p[1] == Function;
  }

  /** The tokens of a definition after `function`, with the parameter
      list `params` and statement tokens `stmts` left abstract. */
  function DefinitionTokens(name: string, params: seq<Token>, stmts: seq<Token>): seq<Token> {
    [Function] + ([Ident(name)] + ([LParen] + (params + ([RParen, Semi, Begin] + (stmts + [End])))))
  }

  /** `parseFunctionExpr` over a well-formed definition, given what the
      parameter loop and the statement list yield. */
  lemma FunctionSteps(name: string, params: seq<Token>, stmts: seq<Token>, names: seq<string>,
                      body: Expr, rest: Stream)
    requires Healthy(rest)
    requires var s4 := Join(params + ([RParen, Semi, Begin] + (stmts + [End])), rest);
             (if Cur(s4) == RParen then Ok(Params([], s4)) else ParseParams(s4, [])) ==
             Ok(Params(names, Join([RParen, Semi, Begin] + (stmts + [End]), rest)))
    requires var s7 := Join(stmts + [End], rest);
             (if Cur(s7) != End then ParseExpressions(s7) else Ok(Parsed(Absent, s7))) ==
             Ok(Parsed(body, Join([End], rest)))
    ensures ParseFunctionExpr(Join(DefinitionTokens(name, params, stmts), rest)) ==
            Ok(Parsed(FunctionExpr(name, names, body), rest))
  {
    var afterBegin := stmts + [End];
    var afterParams := [RParen, Semi, Begin] + afterBegin;
    DefinitionStream(name, params, stmts, rest);
    DefinitionSteps(Join(DefinitionTokens(name, params, stmts), rest), name,
                    Join([Ident(name)] + ([LParen] + (params + afterParams)), rest),
                    Join([LParen] + (params + afterParams), rest),
                    Join(params + afterParams, rest), names, Join(afterParams, rest),
                    Join([Semi] + ([Begin] + afterBegin), rest),
                    Join([Begin] + afterBegin, rest), Join(afterBegin, rest),
                    body, Join([End], rest), rest);
  }

  /** How the stream advances through the fixed tokens of a definition. */
  lemma DefinitionStream(name: string, params: seq<Token>, stmts: seq<Token>, rest: Stream)
    requires Healthy(rest)
    ensures var afterBegin := stmts + [End];
            var afterParams := [RParen, Semi, Begin] + afterBegin;
            var s1 := Join(DefinitionTokens(name, params, stmts), rest);
            var s2 := Join([Ident(name)] + ([LParen] + (params + afterParams)), rest);
            var s3 := Join([LParen] + (params + afterParams), rest);
            var s5 := Join([Semi] + ([Begin] + afterBegin), rest);
            var s6 := Join([Begin] + afterBegin, rest);
            Cur(s1) == Function && Advance(s1) == Ok(s2) && Cur(s2) == Ident(name) &&
            Advance(s2) == Ok(s3) && Cur(s3) == LParen && Advance(s3) == Ok(Join(params + afterParams, rest)) &&
            Advance(Join(afterParams, rest)) == Ok(s5) && Cur(s5) == Semi &&
            Advance(s5) == Ok(s6) && Cur(s6) == Begin && Advance(s6) == Ok(Join(afterBegin, rest)) &&
            Advance(Join([End], rest)) == Ok(rest)
  {
    var afterBegin := stmts + [End];
    var afterParams := [RParen, Semi, Begin] + afterBegin;
    var afterLp := params + afterParams;
    Step(Function, [Ident(name)] + ([LParen] + afterLp), rest);
    Step(Ident(name), [LParen] + afterLp, rest);
    Step(LParen, afterLp, rest);
    assert afterParams == [RParen] + ([Semi] + ([Begin] + afterBegin));
    Step(RParen, [Semi] + ([Begin] + afterBegin), rest);
    Step(Semi, [Begin] + afterBegin, rest);
    Step(Begin, afterBegin, rest);
    Step(End, [], rest);
    assert Join([], rest) == rest;
  }

  lemma DefinitionSteps(s1: Stream, name: string, s2: Stream, s3: Stream, s4: Stream,
                        names: seq<string>, sp: Stream, s5: Stream, s6: Stream, s7: Stream,
                        body: Expr, sEnd: Stream, rest: Stream)
    requires Cur(s1) == Function && Advance(s1) == Ok(s2) && Cur(s2) == Ident(name)
    requires Advance(s2) == Ok(s3) && Cur(s3) == LParen && Advance(s3) == Ok(s4)
    requires (if Cur(s4) == RParen then Ok(Params([], s4)) else ParseParams(s4, [])) == Ok(Params(names, sp))
    requires Advance(sp) == Ok(s5) && Cur(s5) == Semi
    requires Advance(s5) == Ok(s6) && Cur(s6) == Begin && Advance(s6) == Ok(s7)
    requires (if Cur(s7) != End then ParseExpressions(s7) else Ok(Parsed(Absent, s7))) == Ok(Parsed(body, sEnd))
    requires Advance(sEnd) == Ok(rest)
    ensures ParseFunctionExpr(s1) == Ok(Parsed(FunctionExpr(name, names, body), rest))
  {
    HeaderSteps(s1, name, s2, s3, s4, names, sp);
    BodySteps(name, names, sp, s5, s6, s7, body, sEnd, rest);
  }

  /** `function NAME ( params )`, up to the closing `)`. */
  lemma HeaderSteps(s1: Stream, name: string, s2: Stream, s3: Stream, s4: Stream,
                    names: seq<string>, sp: Stream)
    requires Cur(s1) == Function && Advance(s1) == Ok(s2) && Cur(s2) == Ident(name)
    requires Advance(s2) == Ok(s3) && Cur(s3) == LParen && Advance(s3) == Ok(s4)
    requires (if Cur(s4) == RParen then Ok(Params([], s4)) else ParseParams(s4, [])) == Ok(Params(names, sp))
    ensures Cur(sp) == RParen
    ensures ParseFunctionExpr(s1) == ParseFunctionBody(name, names, sp)
  {
  }

  /** `) ; begin [statements] end`. */
  lemma BodySteps(name: string, names: seq<string>, sp: Stream, s5: Stream, s6: Stream, s7: Stream,
                  body: Expr, sEnd: Stream, rest: Stream)
    requires Cur(sp) == RParen && Advance(sp) == Ok(s5) && Cur(s5) == Semi
    requires Advance(s5) == Ok(s6) && Cur(s6) == Begin && Advance(s6) == Ok(s7)
    requires (if Cur(s7) != End then ParseExpressions(s7) else Ok(Parsed(Absent, s7))) == Ok(Parsed(body, sEnd))
    requires Advance(sEnd) == Ok(rest)
    ensures ParseFunctionBody(name, names, sp) == Ok(Parsed(FunctionExpr(name, names, body), rest))
  {
  }

  /** The parameter list of a definition, up to its closing `)`. */
  lemma FunctionParams(ps: seq<string>, after: seq<Token>, rest: Stream)
    requires |after| > 0 && after[0] == RParen && Healthy(rest)
    ensures var s4 := Join(PrintParams(ps) + after, rest);
            (if Cur(s4) == RParen then Ok(Params([], s4)) else ParseParams(s4, [])) ==
            Ok(Params(ps, Join(after, rest)))
  {
    JoinAssoc(PrintParams(ps), after, rest);
    if ps == [] {
      assert PrintParams(ps) + after == after;
    } else {
      assert PrintParams(ps)[0] == Ident(ps[0]);
      assert Join(after, rest).toks[0] == RParen;
      ParamsRoundTrip([], ps, Join(after, rest));
      assert [] + ps == ps;
    }
  }

  /** The statements of a body, up to its closing `end`. */
  lemma FunctionBody(body: Expr, rest: Stream)
    requires body == Absent || PrintableStmts(body)
    requires Healthy(rest)
    decreases Size(body), 5
    ensures var s7 := Join((if body == Absent then [] else PrintStmts(body)) + [End], rest);
            (if Cur(s7) != End then ParseExpressions(s7) else Ok(Parsed(Absent, s7))) ==
            Ok(Parsed(body, Join([End], rest)))
  {
    var b := if body == Absent then [] else PrintStmts(body);
    JoinAssoc(b, [End], rest);
    if body != Absent {
      FirstStmtToken(body);
      StmtsRoundTrip(body, Join([End], rest));
    } else {
      assert b + [End] == [End];
    }
  }

  lemma FunctionShape(e: Expr)
    requires e.FunctionExpr? && PrintableExpr(e)
    ensures Print(e)[1..] == DefinitionTokens(e.name, PrintParams(e.params),
                                              if e.body == Absent then [] else PrintStmts(e.body))
  {
    var params := PrintParams(e.params);
    var stmts := if e.body == Absent then [] else PrintStmts(e.body);
    assert Print(e) == [Integer, Function, Ident(e.name), LParen] + params + [RParen, Semi, Begin] + stmts + [End];
    DefinitionShape(e.name, params, stmts);
  }

  lemma DefinitionShape(name: string, params: seq<Token>, stmts: seq<Token>)
    ensures ([Integer, Function, Ident(name), LParen] + params + [RParen, Semi, Begin] + stmts + [End])[1..] ==
            DefinitionTokens(name, params, stmts)
  {
    var all := [Integer, Function, Ident(name), LParen] + params + [RParen, Semi, Begin] + stmts + [End];
    assert all == [Integer] + DefinitionTokens(name, params, stmts);
  }

  lemma {:induction false} FunctionAfterKeyword(e: Expr, rest: Stream)
    requires e.FunctionExpr? && PrintableExpr(e) && Healthy(rest)
    ensures ParseFunctionExpr(Join(Print(e)[1..], rest)) == Ok(Parsed(e, rest))
    decreases Size(e), 0
  {
    var stmts := if e.body == Absent then [] else PrintStmts(e.body);
    FunctionShape(e);
    assert Print(e)[1..] == DefinitionTokens(e.name, PrintParams(e.params), stmts);
    FunctionParams(e.params, [RParen, Semi, Begin] + (stmts + [End]), rest);
    FunctionBody(e.body, rest);
    FunctionSteps(e.name, PrintParams(e.params), stmts, e.params, e.body, rest);
  }
}

/** Consequences of the round trip for concrete inputs: how precedence
    climbing groups operators. */
module ParserExamples {
  import opened Base
  import opened Tokens
  import opened Lexer
  import opened Ast
  import opened Parser
  import opened Printer
  import opened ParserProps

  const Done := Stream([], AtEof)

  function Var(x: string): Expr {
    VariableExpr(x)
  }

  /** Tokens that print a tree parse, on their own, back to it. */
  lemma PrintedParses(e: Expr, toks: seq<Token>)
    requires PrintableExpr(e) && Print(e) == toks
    ensures ParseExpression(Stream(toks, AtEof)) == Ok(Parsed(e, Done))
  {
    ExprRoundTrip(e, Done);
    assert Join(toks, Done) == Stream(toks, AtEof);
  }

  /** A binary node whose operands both go unparenthesised prints as the
      operands' tokens around the operator's. */
  lemma PrintBare(op: BinOp, l: Expr, r: Expr)
    requires op != OpSeq && PrintableExpr(l) && PrintableExpr(r)
    requires !Wrapped(l, OpPrec(op), false) && !Wrapped(r, OpPrec(op), true)
    ensures Print(BinaryExpr(op, l, r)) == Print(l) + [OpToken(op)] + Print(r)
  {
  }

  /** Operators of equal precedence associate to the left: `a - b - c` is
      `(a - b) - c`. */
  lemma MinusGroupsLeft()
    ensures ParseExpression(Stream([Ident("a"), Minus, Ident("b"), Minus, Ident("c")], AtEof)) ==
            Ok(Parsed(BinaryExpr(OpMinus, BinaryExpr(OpMinus, Var("a"), Var("b")), Var("c")), Done))
  {
    var inner := BinaryExpr(OpMinus, Var("a"), Var("b"));
    PrintBare(OpMinus, Var("a"), Var("b"));
    PrintBare(OpMinus, inner, Var("c"));
    PrintedParses(BinaryExpr(OpMinus, inner, Var("c")), [Ident("a"), Minus, Ident("b"), Minus, Ident("c")]);
  }

  /** A tighter operator on the right nests: `a + b * c` is `a + (b * c)`. */
  lemma TimesBindsTighter()
    ensures ParseExpression(Stream([Ident("a"), Plus, Ident("b"), Mul, Ident("c")], AtEof)) ==
            Ok(Parsed(BinaryExpr(OpPlus, Var("a"), BinaryExpr(OpMul, Var("b"), Var("c"))), Done))
  {
    var inner := BinaryExpr(OpMul, Var("b"), Var("c"));
    PrintBare(OpMul, Var("b"), Var("c"));
    PrintBare(OpPlus, Var("a"), inner);
    PrintedParses(BinaryExpr(OpPlus, Var("a"), inner), [Ident("a"), Plus, Ident("b"), Mul, Ident("c")]);
  }

  /** Comparison binds looser than arithmetic: `a < b + 1` is `a < (b + 1)`. */
  lemma ComparisonBindsLooser()
    ensures ParseExpression(Stream([Ident("a"), Less, Ident("b"), Plus, Number(1)], AtEof)) ==
            Ok(Parsed(BinaryExpr(OpLess, Var("a"), BinaryExpr(OpPlus, Var("b"), NumberExpr(1))), Done))
  {
    var inner := BinaryExpr(OpPlus, Var("b"), NumberExpr(1));
    PrintBare(OpPlus, Var("b"), NumberExpr(1));
    PrintBare(OpLess, Var("a"), inner);
    PrintedParses(BinaryExpr(OpLess, Var("a"), inner), [Ident("a"), Less, Ident("b"), Plus, Number(1)]);
  }

  /** `:=` is an ordinary left-associative operator: `x := y := 5` is
      `(x := y) := 5`, not `x := (y := 5)`. */
  lemma ChainedAssignmentGroupsLeft()
    ensures ParseExpression(Stream([Ident("x"), Assign, Ident("y"), Assign, Number(5)], AtEof)) ==
            Ok(Parsed(BinaryExpr(OpAssign, BinaryExpr(OpAssign, Var("x"), Var("y")), NumberExpr(5)), Done))
  {
    var inner := BinaryExpr(OpAssign, Var("x"), Var("y"));
    PrintBare(OpAssign, Var("x"), Var("y"));
    PrintBare(OpAssign, inner, NumberExpr(5));
    PrintedParses(BinaryExpr(OpAssign, inner, NumberExpr(5)), [Ident("x"), Assign, Ident("y"), Assign, Number(5)]);
  }
}
