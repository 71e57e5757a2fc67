/** The lexer `gettok` (Interpreter/test.cpp:77-165).

    The C++ lexer keeps one character of lookahead in the static `lastChar`
    and pulls the rest with `getchar()`. Here the input is a string and a
    position `pos`: `input[pos]` is `lastChar`, and `pos == |input|` stands
    for `EOF`. The initial `lastChar` is a blank, which the first call skips,
    so starting at position 0 is the same thing. */
module Lexer {
  import opened Base
  import opened Tokens

  /** The C library's classification in the "C" locale. */
  predicate IsDigit(c: char) { '0' <= c <= '9' }
  predicate IsAlpha(c: char) { 'a' <= c <= 'z' || 'A' <= c <= 'Z' }
  predicate IsAlnum(c: char) { IsDigit(c) || IsAlpha(c) }
  predicate IsSpace(c: char) {
    c == ' ' || c == '\t' || c == '\n' || c == '\r' || c as int == 11 || c as int == 12
  }

  predicate AllSpace(input: string, from: nat) {
    forall i | from <= i < |input| :: IsSpace(input[i])
  }

  /** The end of the run of characters satisfying `p` that starts at `from`. */
  function RunEnd(input: string, from: nat, p: char -> bool): (q: nat)
    requires from <= |input|
    ensures from <= q <= |input|
    ensures forall i | from <= i < q :: p(input[i])
    ensures q == |input| || !p(input[q])
    decreases |input| - from
  {
    if from < |input| && p(input[from]) then RunEnd(input, from + 1, p) else from
  }

  /** The value of a run of decimal digits (what `stoi` computes before it
      checks the range). */
  function DecimalValue(s: string): nat
    requires forall i | 0 <= i < |s| :: IsDigit(s[i])
  {
    if s == [] then 0
    else
      assert IsDigit(s[|s| - 1]);
      DecimalValue(s[..|s| - 1]) * 10 + (s[|s| - 1] as int - '0' as int)
  }

  /** One lexed token and the position of the new `lastChar`. */
  datatype Lexed = Lexed(tok: Token, next: nat)

  /** `gettok`: skip blanks, then classify the next token. A fatal lexical
      error is a `Fail`. */
  function Scan(input: string, pos: nat): (r: Result<Lexed>)
    requires pos <= |input|
    ensures r.Ok? ==> pos <= r.value.next <= |input|
    ensures r.Ok? && r.value.tok != Eof ==> pos < r.value.next
    ensures r == Ok(Lexed(Eof, |input|)) <==> AllSpace(input, pos)
    ensures r.Ok? && r.value.tok.Eof? ==> r.value.next == |input|
  {
    var p := RunEnd(input, pos, IsSpace);
    if p == |input| then Ok(Lexed(Eof, p))
    else if IsDigit(input[p]) then ScanNumber(input, p)
    else if IsAlpha(input[p]) then ScanWord(input, p)
    else ScanOperator(input, p)
  }

  /** A digit run: `stoi` of the run, which throws above INT_MAX. */
  function ScanNumber(input: string, p: nat): (r: Result<Lexed>)
    requires p < |input| && IsDigit(input[p])
    ensures r.Ok? ==> r.value.tok.Number? && p < r.value.next <= |input|
  {
    var q := RunEnd(input, p, IsDigit);
    var v := DecimalValue(input[p..q]);
    if v > INT_MAX then Fail(Fatal(NumberTooLarge)) else Ok(Lexed(Number(v), q))
  }

  /** A letter-initial alphanumeric run: a reserved word or an identifier. */
  function ScanWord(input: string, p: nat): (r: Result<Lexed>)
    requires p < |input| && IsAlpha(input[p])
    ensures r.Ok? && r.value.tok != Eof && p < r.value.next <= |input|
  {
    var q := RunEnd(input, p, IsAlnum);
    var w := input[p..q];
    Ok(Lexed(if w in Reserved then Reserved[w] else Ident(w), q))
  }

  /** An operator or punctuation character, with one character of
      lookahead for `<>`, `<=`, `>=` and `:=`. */
  function ScanOperator(input: string, p: nat): (r: Result<Lexed>)
    requires p < |input|
    ensures r.Ok? ==> r.value.tok != Eof && p < r.value.next <= |input|
  {
    var c := input[p];
    var hasNext := p + 1 < |input|;
    if c == '<' then
      if hasNext && input[p + 1] == '>' then Ok(Lexed(Neq, p + 2))
      else if hasNext && input[p + 1] == '=' then Ok(Lexed(Le, p + 2))
      else Ok(Lexed(Less, p + 1))
    else if c == '>' then
      if hasNext && input[p + 1] == '=' then Ok(Lexed(Ge, p + 2))
      else Ok(Lexed(Greater, p + 1))
    else if c == ':' then
      if hasNext && input[p + 1] == '=' then Ok(Lexed(Assign, p + 2))
      else Fail(Fatal(BadColon))
    else if c == '+' then Ok(Lexed(Plus, p + 1))
    else if c == '-' then Ok(Lexed(Minus, p + 1))
    else if c == '*' then Ok(Lexed(Mul, p + 1))
    else if c == '(' then Ok(Lexed(LParen, p + 1))
    else if c == ')' then Ok(Lexed(RParen, p + 1))
    else if c == ';' then Ok(Lexed(Semi, p + 1))
    else if c == ',' then Ok(Lexed(Comma, p + 1))
    else if c == '=' then Ok(Lexed(Eq, p + 1))
    else Fail(Fatal(BadChar(c)))
  }

  /** How the token stream ends: end of input (after which `gettok` keeps
      answering `tok_eof`), or a fatal lexical error that is raised when the
      parser asks for the next token there. */
  datatype Tail = AtEof | LexFail(err: Error)

  /** The tokens `gettok` returns one after another, up to (not including)
      the first end-of-input token or lexical error. */
  datatype Stream = Stream(toks: seq<Token>, tail: Tail)

  function Tokenize(input: string, pos: nat): (s: Stream)
    requires pos <= |input|
    ensures Eof !in s.toks
    decreases |input| - pos
  {
    match Scan(input, pos)
    case Fail(e) => Stream([], LexFail(e))
    case Ok(Lexed(t, q)) =>
      if t == Eof then Stream([], AtEof)
      else
        var rest := Tokenize(input, q);
        Stream([t] + rest.toks, rest.tail)
  }
}
