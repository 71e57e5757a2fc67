/** The recursive-descent parser with precedence climbing
    (Interpreter/test.cpp:462-718).

    The parser state is the token stream from the current token on: the C++
    globals `curTok`, `IdentifierStr` and `numVal` are the first token of
    `toks` and its payload. `logError` prints a message and yields a null
    node; that is `Absent` here, and parsing goes on from wherever the
    stream stands, as in the source. A lexical error is met only when the
    parser advances onto it, and is fatal. */
module Parser {
  import opened Base
  import opened Tokens
  import opened Lexer
  import opened Ast

  /** `curTok`. Past the last token, `gettok` answers end of input. */
  function Cur(s: Stream): Token {
    if |s.toks| > 0 then s.toks[0] else Eof
  }

  /** `getNextToken`. */
  function Advance(s: Stream): (r: Result<Stream>)
    ensures r.Ok? ==> r.value.tail == s.tail && |r.value.toks| <= |s.toks|
    ensures r.Ok? && |s.toks| > 0 ==> r.value.toks == s.toks[1..]
    ensures r.Fail? <==> |s.toks| <= 1 && s.tail.LexFail?
  {
    if |s.toks| > 1 then Ok(Stream(s.toks[1..], s.tail))
    else if s.tail.LexFail? then Fail(s.tail.err)
    else Ok(Stream([], AtEof))
  }

  /** The rest of the stream stays inside the stream it came from. */
  predicate Within(r: Stream, s: Stream) {
    r.tail == s.tail && |r.toks| <= |s.toks|
  }

  datatype Parsed = Parsed(e: Expr, rest: Stream)

  /** The `BinaryExprAST` operator code of an operator token. */
  function OpOf(t: Token): BinOp
    requires Prec(t) > 0
  {
    match t
    case Plus => OpPlus
    case Minus => OpMinus
    case Mul => OpMul
    case Less => OpLess
    case Greater => OpGreater
    case Neq => OpNeq
    case Le => OpLe
    case Ge => OpGe
    case Assign => OpAssign
    case Eq => OpEq
  }

  /** `parseNumberExpr`. */
  function ParseNumberExpr(s: Stream): (r: Result<Parsed>)
    requires Cur(s).Number?
    ensures r.Ok? ==> Within(r.value.rest, s) && |r.value.rest.toks| < |s.toks|
  {
    var s1 :- Advance(s);
    Ok(Parsed(NumberExpr(Cur(s).value), s1))
  }

  /** `parseParenExpr`: no node of its own; the inner expression is the
      result. */
  function ParseParenExpr(s: Stream): (r: Result<Parsed>)
    requires Cur(s) == LParen
    ensures r.Ok? ==> Within(r.value.rest, s)
    decreases |s.toks|, 0
  {
    var s1 :- Advance(s);
    var inner :- ParseExpression(s1);
    if inner.e == Absent then Ok(Parsed(Absent, inner.rest))
    else if Cur(inner.rest) != RParen then Ok(Parsed(Absent, inner.rest))
    else
      var s2 :- Advance(inner.rest);
      Ok(Parsed(inner.e, s2))
  }

  /** `parseExpressions`: a `;`-separated statement list, right-nested. The
      first statement is not checked for null. */
  function ParseExpressions(s: Stream): (r: Result<Parsed>)
    ensures r.Ok? ==> Within(r.value.rest, s)
    decreases |s.toks|, 3
  {
    var first :- ParseExpression(s);
    if Cur(first.rest) != Semi then Ok(first)
    else
      var s1 :- Advance(first.rest);
      var others :- ParseExpressions(s1);
      Ok(Parsed(BinaryExpr(OpSeq, first.e, others.e), others.rest))
  }

  /** The outcome of the parameter loop of `parseFunctionExpr`. */
  datatype ParamList = Params(names: seq<string>, rest: Stream) | BadParams(rest: Stream)

  /** The `while (1)` loop over parameter names; on success the stream is
      at the closing `)`. */
  function ParseParams(s: Stream, acc: seq<string>): (r: Result<ParamList>)
    ensures r.Ok? ==> Within(r.value.rest, s)
    ensures r.Ok? && r.value.Params? ==> Cur(r.value.rest) == RParen
    decreases |s.toks|
  {
    if !Cur(s).Ident? then Ok(BadParams(s))
    else
      var names := acc + [Cur(s).name];
      var s1 :- Advance(s);
      if Cur(s1) == RParen then Ok(Params(names, s1))
      else if Cur(s1) != Comma then Ok(BadParams(s1))
      else
        var s2 :- Advance(s1);
        ParseParams(s2, names)
  }

  /** `parseFunctionExpr`, entered on the `function` token:
      `function NAME ( [params] ) ; begin [statements] end`. An empty body
      stays null. */
  function ParseFunctionExpr(s: Stream): (r: Result<Parsed>)
    requires Cur(s) == Function
    ensures r.Ok? ==> Within(r.value.rest, s)
    decreases |s.toks|, 0
  {
    var s1 :- Advance(s);
    if !Cur(s1).Ident? then Ok(Parsed(Absent, s1))
    else
      var name := Cur(s1).name;
      var s2 :- Advance(s1);
      if Cur(s2) != LParen then Ok(Parsed(Absent, s2))
      else
        var s3 :- Advance(s2);
        var ps :- if Cur(s3) == RParen then Ok(Params([], s3)) else ParseParams(s3, []);
        if ps.BadParams? then Ok(Parsed(Absent, ps.rest))
        else ParseFunctionBody(name, ps.names, ps.rest)
  }

  /** The rest of `parseFunctionExpr`, from the `)` that closes the
      parameter list: `; begin [statements] end`. */
  function ParseFunctionBody(name: string, names: seq<string>, s: Stream): (r: Result<Parsed>)
    requires Cur(s) == RParen
    ensures r.Ok? ==> Within(r.value.rest, s)
    decreases |s.toks|, 0
  {
    var s4 :- Advance(s);
    if Cur(s4) != Semi then Ok(Parsed(Absent, s4))
    else
      var s5 :- Advance(s4);
      if Cur(s5) != Begin then Ok(Parsed(Absent, s5))
      else
        var s6 :- Advance(s5);
        var body :- if Cur(s6) != End then ParseExpressions(s6) else Ok(Parsed(Absent, s6));
        var s7 :- Advance(body.rest);
        Ok(Parsed(FunctionExpr(name, names, body.e), s7))
  }

  /** The argument loop of `parseIdentifierExpr`; `args` holds the
      arguments parsed so far. */
  function ParseArgs(callee: string, s: Stream, args: seq<Expr>): (r: Result<Parsed>)
    ensures r.Ok? ==> Within(r.value.rest, s)
    decreases |s.toks|, 3
  {
    var arg :- ParseExpression(s);
    if arg.e == Absent then Ok(Parsed(Absent, arg.rest))
    else if Cur(arg.rest) == RParen then
      var s1 :- Advance(arg.rest);
      Ok(Parsed(CallExpr(callee, args + [arg.e]), s1))
    else if Cur(arg.rest) != Comma then Ok(Parsed(Absent, arg.rest))
    else
      var s1 :- Advance(arg.rest);
      ParseArgs(callee, s1, args + [arg.e])
  }

  /** `parseIdentifierExpr`: a variable, or a call when `(` follows. */
  function ParseIdentifierExpr(s: Stream): (r: Result<Parsed>)
    requires Cur(s).Ident?
    ensures r.Ok? ==> Within(r.value.rest, s)
    decreases |s.toks|, 0
  {
    var name := Cur(s).name;
    var s1 :- Advance(s);
    if Cur(s1) != LParen then Ok(Parsed(VariableExpr(name), s1))
    else
      var s2 :- Advance(s1);
      if Cur(s2) == RParen then
        var s3 :- Advance(s2);
        Ok(Parsed(CallExpr(name, []), s3))
      else ParseArgs(name, s2, [])
  }

  /** `parseInteger`: `integer NAME...` or `integer function ...`. */
  function ParseInteger(s: Stream): (r: Result<Parsed>)
    requires Cur(s) == Integer
    ensures r.Ok? ==> Within(r.value.rest, s)
    decreases |s.toks|, 0
  {
    var s1 :- Advance(s);
    match Cur(s1)
    case Ident(_) => ParseIdentifierExpr(s1)
    case Function => ParseFunctionExpr(s1)
    case _ => Ok(Parsed(Absent, s1))
  }

  /** `parseReadAST` and `parseWriteAST`: `read ( NAME )`, `write ( NAME )`. */
  function ParseReadWrite(s: Stream, isRead: bool): (r: Result<Parsed>)
    requires Cur(s) == (if isRead then Read else Write)
    ensures r.Ok? ==> Within(r.value.rest, s)
  {
    var s1 :- Advance(s);
    if Cur(s1) != LParen then Ok(Parsed(Absent, s1))
    else
      var s2 :- Advance(s1);
      if !Cur(s2).Ident? then Ok(Parsed(Absent, s2))
      else
        var name := Cur(s2).name;
        var s3 :- Advance(s2);
        if Cur(s3) != RParen then Ok(Parsed(Absent, s3))
        else
          var s4 :- Advance(s3);
          Ok(Parsed(if isRead then ReadExpr(name) else WriteExpr(name), s4))
  }

  /** `parseConditionExpr`: `if E then E else E`, each part a single
      expression; the parts are not checked for null. */
  function ParseConditionExpr(s: Stream): (r: Result<Parsed>)
    requires Cur(s) == If
    ensures r.Ok? ==> Within(r.value.rest, s)
    decreases |s.toks|, 0
  {
    var s1 :- Advance(s);
    var c :- ParseExpression(s1);
    if Cur(c.rest) != Then then Ok(Parsed(Absent, c.rest))
    else
      var s2 :- Advance(c.rest);
      var t :- ParseExpression(s2);
      if Cur(t.rest) != Else then Ok(Parsed(Absent, t.rest))
      else
        var s3 :- Advance(t.rest);
        var f :- ParseExpression(s3);
        Ok(Parsed(ConditionExpr(c.e, t.e, f.e), f.rest))
  }

  /** `parsePrimary`: dispatch on the current token; any other token is an
      error that consumes nothing. */
  function ParsePrimary(s: Stream): (r: Result<Parsed>)
    ensures r.Ok? ==> Within(r.value.rest, s)
    decreases |s.toks|, 1
  {
    match Cur(s)
    case Read => ParseReadWrite(s, true)
    case Write => ParseReadWrite(s, false)
    case Integer => ParseInteger(s)
    case Ident(_) => ParseIdentifierExpr(s)
    case If => ParseConditionExpr(s)
    case LParen => ParseParenExpr(s)
    case Number(_) => ParseNumberExpr(s)
    case _ => Ok(Parsed(Absent, s))
  }

  /** `parseBinOpRHS`: precedence climbing. Operators whose precedence is
      at least `minPrec` are consumed; when the operator after the right
      operand binds tighter, the right operand is extended first. */
  function ParseBinOpRHS(minPrec: nat, lhs: Expr, s: Stream): (r: Result<Parsed>)
    requires minPrec >= 1
    ensures r.Ok? ==> Within(r.value.rest, s)
    ensures r.Ok? && r.value.e != Absent ==> Prec(Cur(r.value.rest)) < minPrec
    decreases |s.toks|, 0
  {
    var tokPrec := Prec(Cur(s));
    if tokPrec < minPrec then Ok(Parsed(lhs, s))
    else
      var op := OpOf(Cur(s));
      var s1 :- Advance(s);
      var rhs :- ParsePrimary(s1);
      if rhs.e == Absent then Ok(Parsed(Absent, rhs.rest))
      else
        var rhs2 :- if tokPrec < Prec(Cur(rhs.rest)) then ParseBinOpRHS(tokPrec + 1, rhs.e, rhs.rest)
                    else Ok(rhs);
        if rhs2.e == Absent then Ok(Parsed(Absent, rhs2.rest))
        else ParseBinOpRHS(minPrec, BinaryExpr(op, lhs, rhs2.e), rhs2.rest)
  }

  /** `parseExpression`: a primary followed by binary operators. */
  function ParseExpression(s: Stream): (r: Result<Parsed>)
    ensures r.Ok? ==> Within(r.value.rest, s)
    ensures r.Ok? && r.value.e != Absent ==> Prec(Cur(r.value.rest)) == 0
    decreases |s.toks|, 2
  {
    var lhs :- ParsePrimary(s);
    if lhs.e == Absent then Ok(Parsed(Absent, lhs.rest))
    else ParseBinOpRHS(1, lhs.e, lhs.rest)
  }
}
