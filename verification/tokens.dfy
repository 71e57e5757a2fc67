/** Tokens of the toy language, its reserved words and the binary-operator
    precedence table (Interpreter/test.cpp, `enum Token`, `reserveTokens`,
    `binopPrecedence`). */
module Tokens {
  import opened Base

  datatype Token =
    | Eof
    | Ident(name: string)
    | Number(value: Int32)
    | Begin | End | Read | Write | Integer | If | Else | Then | Function
    | Neq      // <>
    | Eq       // =
    | Less     // <
    | Greater  // >
    | Assign   // :=
    | Mul      // *
    | Plus     // +
    | Minus    // -
    | Le       // <=
    | Ge       // >=
    | LParen   // (
    | RParen   // )
    | Semi     // ;
    | Comma    // ,

  /** The nine reserved words and the keyword token each one yields. */
  const Reserved: map<string, Token> :=
    map["function" := Function, "integer" := Integer, "if" := If,
        "else" := Else, "then" := Then, "read" := Read,
        "write" := Write, "begin" := Begin, "end" := End]

  predicate IsKeyword(t: Token) {
    t.Begin? || t.End? || t.Read? || t.Write? || t.Integer? ||
    t.If? || t.Else? || t.Then? || t.Function?
  }

  /** The spelling of a keyword token. */
  function KeywordText(t: Token): (w: string)
    requires IsKeyword(t)
    ensures w in Reserved && Reserved[w] == t
  {
    match t
    case Function => "function"
    case Integer => "integer"
    case If => "if"
    case Else => "else"
    case Then => "then"
    case Read => "read"
    case Write => "write"
    case Begin => "begin"
    case End => "end"
  }

  /** `getTokPrecedence`: the table lookup, with 0 for every token the table
      does not list (`operator[]` default-constructs the missing entry). */
  function Prec(t: Token): (p: nat)
    ensures p > 0 <==> t.Plus? || t.Minus? || t.Mul? || t.Less? || t.Greater? ||
                       t.Neq? || t.Le? || t.Ge? || t.Assign? || t.Eq?
  {
    match t
    case Plus => 20
    case Minus => 20
    case Mul => 40
    case Less => 10
    case Greater => 10
    case Neq => 9
    case Le => 10
    case Ge => 10
    case Assign => 5
    case Eq => 9
    case _ => 0
  }
}
