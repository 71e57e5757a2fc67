/** Properties of the lexer: digit runs, words, operators, lexical errors,
    and the round trip from a token list spelled out as text back to the
    same tokens. */
module LexerProps {
  import opened Base
  import opened Tokens
  import opened Lexer

  /** The run found by `RunEnd` is the unique maximal run. */
  lemma {:induction false} RunEndIsMaximalRun(input: string, from: nat, q: nat, p: char -> bool)
    requires from <= q <= |input|
    requires forall i | from <= i < q :: p(input[i])
    requires q == |input| || !p(input[q])
    ensures RunEnd(input, from, p) == q
    decreases q - from
  {
    if from < q {
      RunEndIsMaximalRun(input, from + 1, q, p);
    }
  }

  /** A maximal digit run, after blanks, is one number token whose value is
      the decimal value of the digits; above INT_MAX it is fatal. */
  lemma DigitRunLexesToNumber(input: string, pos: nat, p: nat, q: nat)
    requires pos <= p < q <= |input|
    requires forall i | pos <= i < p :: IsSpace(input[i])
    requires forall i | p <= i < q :: IsDigit(input[i])
    requires q == |input| || !IsDigit(input[q])
    ensures DecimalValue(input[p..q]) <= INT_MAX ==>
              Scan(input, pos) == Ok(Lexed(Number(DecimalValue(input[p..q])), q))
    ensures DecimalValue(input[p..q]) > INT_MAX ==>
              Scan(input, pos) == Fail(Fatal(NumberTooLarge))
  {
    RunEndIsMaximalRun(input, pos, p, IsSpace);
    RunEndIsMaximalRun(input, p, q, IsDigit);
  }

  /** A maximal letter-initial alphanumeric run is the keyword token exactly
      when it is one of the reserved words, and otherwise an identifier that
      carries the exact text. */
  lemma WordLexesToKeywordOrIdentifier(input: string, pos: nat, p: nat, q: nat)
    requires pos <= p < q <= |input|
    requires forall i | pos <= i < p :: IsSpace(input[i])
    requires IsAlpha(input[p])
    requires forall i | p <= i < q :: IsAlnum(input[i])
    requires q == |input| || !IsAlnum(input[q])
    ensures Scan(input, pos).Ok? && Scan(input, pos).value.next == q
    ensures IsKeyword(Scan(input, pos).value.tok) <==> input[p..q] in Reserved
    ensures input[p..q] in Reserved ==> Scan(input, pos).value.tok == Reserved[input[p..q]]
    ensures input[p..q] !in Reserved ==> Scan(input, pos).value.tok == Ident(input[p..q])
  {
    RunEndIsMaximalRun(input, pos, p, IsSpace);
    RunEndIsMaximalRun(input, p, q, IsAlnum);
  }

  /** The character at `p` after blanks starts an operator. */
  predicate OperatorAt(input: string, pos: nat, p: nat)
  {
    && pos <= p < |input|
    && (forall i | pos <= i < p :: IsSpace(input[i]))
    && !IsSpace(input[p])
  }

  /** `<>`, `<=`, `>=` and `:=` are single tokens. */
  lemma TwoCharacterOperators(input: string, pos: nat, p: nat)
    requires OperatorAt(input, pos, p) && p + 1 < |input|
    ensures input[p] == '<' && input[p + 1] == '>' ==> Scan(input, pos) == Ok(Lexed(Neq, p + 2))
    ensures input[p] == '<' && input[p + 1] == '=' ==> Scan(input, pos) == Ok(Lexed(Le, p + 2))
    ensures input[p] == '>' && input[p + 1] == '=' ==> Scan(input, pos) == Ok(Lexed(Ge, p + 2))
    ensures input[p] == ':' && input[p + 1] == '=' ==> Scan(input, pos) == Ok(Lexed(Assign, p + 2))
  {
    RunEndIsMaximalRun(input, pos, p, IsSpace);
  }

  /** A lone `<` or `>` does not consume the character that follows it. */
  lemma LoneAngleKeepsLookahead(input: string, pos: nat, p: nat)
    requires OperatorAt(input, pos, p)
    requires input[p] == '<' || input[p] == '>'
    requires p + 1 == |input| || (input[p + 1] != '>' && input[p + 1] != '=')
    ensures Scan(input, pos) == Ok(Lexed(if input[p] == '<' then Less else Greater, p + 1))
  {
    RunEndIsMaximalRun(input, pos, p, IsSpace);
  }

  /** `:` without `=` and any character no token starts with are fatal. */
  lemma LexicalErrors(input: string, pos: nat, p: nat)
    requires OperatorAt(input, pos, p)
    ensures input[p] == ':' && (p + 1 == |input| || input[p + 1] != '=') ==>
              Scan(input, pos) == Fail(Fatal(BadColon))
    ensures !IsSpace(input[p]) && !IsAlnum(input[p]) && input[p] !in "<>:+-*();,=" ==>
              Scan(input, pos) == Fail(Fatal(BadChar(input[p])))
  {
    RunEndIsMaximalRun(input, pos, p, IsSpace);
  }

  // ---------------------------------------------------------------------
  // Spelling tokens out as text, and lexing the text back.

  function DigitChar(d: nat): (c: char)
    requires d < 10
    ensures IsDigit(c) && c as int - '0' as int == d
  {
    ('0' as int + d) as char
  }

  /** The shortest decimal spelling of `n`. */
  function DecimalString(n: nat): (s: string)
    ensures |s| > 0
    ensures forall i | 0 <= i < |s| :: IsDigit(s[i])
  {
    if n < 10 then [DigitChar(n)] else DecimalString(n / 10) + [DigitChar(n % 10)]
  }

  lemma {:induction false} DecimalStringValue(n: nat)
    ensures DecimalValue(DecimalString(n)) == n
  {
    var s := DecimalString(n);
    if n >= 10 {
      DecimalStringValue(n / 10);
      assert s[..|s| - 1] == DecimalString(n / 10);
    }
  }

  predicate ValidIdent(w: string) {
    && |w| > 0
    && IsAlpha(w[0])
    && (forall i | 0 <= i < |w| :: IsAlnum(w[i]))
    && w !in Reserved
  }

  /** Tokens the lexer can produce: no end marker, identifiers that are
      well-formed non-reserved words, and non-negative numbers. */
  predicate Lexable(t: Token) {
    && t != Eof
    && (t.Ident? ==> ValidIdent(t.name))
    && (t.Number? ==> t.value >= 0)
  }

  predicate AllLexable(ts: seq<Token>) {
    forall i | 0 <= i < |ts| :: Lexable(ts[i])
  }

  /** The text of a token; the end marker and negative numbers, which the
      lexer never produces, have none. */
  function Spell(t: Token): string
  {
    if IsKeyword(t) then KeywordText(t)
    else
      match t
      case Ident(w) => w
      case Number(n) => if n >= 0 then DecimalString(n) else ""
      case Neq => "<>"
      case Eq => "="
      case Less => "<"
      case Greater => ">"
      case Assign => ":="
      case Mul => "*"
      case Plus => "+"
      case Minus => "-"
      case Le => "<="
      case Ge => ">="
      case LParen => "("
      case RParen => ")"
      case Semi => ";"
      case Comma => ","
      case _ => ""
  }

  /** Token list as text, each token followed by one blank. */
  function Unlex(toks: seq<Token>): string
  {
    if toks == [] then "" else Spell(toks[0]) + " " + Unlex(toks[1..])
  }

  lemma ReservedWordsAreWords(w: string)
    requires w in Reserved
    ensures |w| > 0 && IsAlpha(w[0]) && forall i | 0 <= i < |w| :: IsAlnum(w[i])
  {
  }

  /** The characters of `input` from `pos` on spell `s`, then a blank. */
  predicate SpelledAt(input: string, pos: nat, s: string)
  {
    && pos + |s| < |input|
    && (forall i | 0 <= i < |s| :: input[pos + i] == s[i])
    && input[pos + |s|] == ' '
  }

  lemma SpelledAtSlice(input: string, pos: nat, s: string)
    requires pos + |s| < |input|
    requires input[pos..pos + |s|] == s && input[pos + |s|] == ' '
    ensures SpelledAt(input, pos, s)
  {
    forall i | 0 <= i < |s|
      ensures input[pos + i] == s[i]
    {
      assert input[pos..pos + |s|][i] == input[pos + i];
    }
  }

  lemma ScanSpelledNumber(input: string, pos: nat, n: Int32)
    requires n >= 0
    requires SpelledAt(input, pos, DecimalString(n))
    ensures Scan(input, pos) == Ok(Lexed(Number(n), pos + |DecimalString(n)|))
  {
    var s := DecimalString(n);
    var q := pos + |s|;
    assert input[pos] == s[0];
    forall i | pos <= i < q
      ensures IsDigit(input[i])
    {
      assert input[pos + (i - pos)] == s[i - pos];
    }
    RunEndIsMaximalRun(input, pos, pos, IsSpace);
    RunEndIsMaximalRun(input, pos, q, IsDigit);
    assert input[pos..q] == s;
    DecimalStringValue(n);
  }

  lemma ScanSpelledWord(input: string, pos: nat, w: string)
    requires |w| > 0 && IsAlpha(w[0]) && forall i | 0 <= i < |w| :: IsAlnum(w[i])
    requires SpelledAt(input, pos, w)
    ensures Scan(input, pos) ==
              Ok(Lexed(if w in Reserved then Reserved[w] else Ident(w), pos + |w|))
  {
    var q := pos + |w|;
    assert input[pos] == w[0];
    forall i | pos <= i < q
      ensures IsAlnum(input[i])
    {
      assert input[pos + (i - pos)] == w[i - pos];
    }
    RunEndIsMaximalRun(input, pos, pos, IsSpace);
    RunEndIsMaximalRun(input, pos, q, IsAlnum);
    assert input[pos..q] == w;
  }

  lemma ScanSpelledOperator(input: string, pos: nat, t: Token)
    requires Lexable(t) && !t.Ident? && !t.Number? && !IsKeyword(t)
    requires SpelledAt(input, pos, Spell(t))
    ensures Scan(input, pos) == Ok(Lexed(t, pos + |Spell(t)|))
  {
    var s := Spell(t);
    assert input[pos] == s[0];
    assert |s| == 2 ==> input[pos + 1] == s[1];
    assert |s| == 1 ==> input[pos + 1] == ' ';
    RunEndIsMaximalRun(input, pos, pos, IsSpace);
  }

  /** A spelled token followed by a blank lexes back to the token. */
  lemma ScanSpelled(input: string, pos: nat, t: Token)
    requires Lexable(t)
    requires SpelledAt(input, pos, Spell(t))
    ensures Scan(input, pos) == Ok(Lexed(t, pos + |Spell(t)|))
  {
    if t.Number? {
      assert Spell(t) == DecimalString(t.value);
      ScanSpelledNumber(input, pos, t.value);
    } else if t.Ident? {
      assert Spell(t) == t.name;
      ScanSpelledWord(input, pos, t.name);
    } else if IsKeyword(t) {
      ScanSpelledKeyword(input, pos, t);
    } else {
      ScanSpelledOperator(input, pos, t);
    }
  }

  lemma ScanSpelledKeyword(input: string, pos: nat, t: Token)
    requires IsKeyword(t)
    requires SpelledAt(input, pos, Spell(t))
    ensures Scan(input, pos) == Ok(Lexed(t, pos + |Spell(t)|))
  {
    assert Spell(t) == KeywordText(t);
    ReservedWordsAreWords(KeywordText(t));
    ScanSpelledWord(input, pos, KeywordText(t));
  }

  /** A blank at `q` makes no difference to the next token. */
  lemma ScanSkipsBlank(input: string, q: nat)
    requires q < |input| && IsSpace(input[q])
    ensures Scan(input, q) == Scan(input, q + 1)
  {
    assert RunEnd(input, q, IsSpace) == RunEnd(input, q + 1, IsSpace);
  }

  lemma TokenizeSkipsBlank(input: string, q: nat)
    requires q < |input| && IsSpace(input[q])
    ensures Tokenize(input, q) == Tokenize(input, q + 1)
  {
    ScanSkipsBlank(input, q);
  }

  lemma TokenizeStep(input: string, pos: nat, t: Token, q: nat)
    requires pos <= |input|
    requires Scan(input, pos) == Ok(Lexed(t, q)) && t != Eof
    ensures q <= |input|
    ensures Tokenize(input, pos).toks == [t] + Tokenize(input, q).toks
    ensures Tokenize(input, pos).tail == Tokenize(input, q).tail
  {
  }

  /** A spelled first token, its blank, and text that lexes to the other
      tokens. */
  lemma TokenizeHead(input: string, pos: nat, toks: seq<Token>, q: nat)
    requires toks != [] && Lexable(toks[0])
    requires q == pos + |Spell(toks[0])| && q < |input|
    requires input[pos..q] == Spell(toks[0]) && input[q] == ' '
    ensures Tokenize(input, q + 1) == Stream(toks[1..], AtEof) ==> Tokenize(input, pos) == Stream(toks, AtEof)
  {
    ScanSpelledSlice(input, pos, toks[0], q);
    if Tokenize(input, q + 1) == Stream(toks[1..], AtEof) {
      TokenizeAfterScan(input, pos, toks, q);
    }
  }

  lemma ScanSpelledSlice(input: string, pos: nat, t: Token, q: nat)
    requires Lexable(t) && q == pos + |Spell(t)| && q < |input|
    requires input[pos..q] == Spell(t) && input[q] == ' '
    ensures Scan(input, pos) == Ok(Lexed(t, q))
  {
    SpelledAtSlice(input, pos, Spell(t));
    ScanSpelled(input, pos, t);
  }

  lemma TokenizeAfterScan(input: string, pos: nat, toks: seq<Token>, q: nat)
    requires pos <= |input| && q < |input| && input[q] == ' ' && toks != [] && toks[0] != Eof
    requires Scan(input, pos) == Ok(Lexed(toks[0], q))
    requires Tokenize(input, q + 1) == Stream(toks[1..], AtEof)
    ensures Tokenize(input, pos) == Stream(toks, AtEof)
  {
    TokenizeStep(input, pos, toks[0], q);
    TokenizeSkipsBlank(input, q);
    assert [toks[0]] + toks[1..] == toks;
  }

  /** Text spelling a non-empty token list spells the first token, then a
      blank at `q`, then the rest of the list. */
  lemma UnlexHead(input: string, pos: nat, toks: seq<Token>) returns (q: nat)
    requires pos <= |input| && toks != []
    requires input[pos..] == Unlex(toks)
    ensures q == pos + |Spell(toks[0])| && q < |input|
    ensures input[pos..q] == Spell(toks[0]) && input[q] == ' '
    ensures input[q + 1..] == Unlex(toks[1..])
  {
    var s, more := Spell(toks[0]), Unlex(toks[1..]);
    q := pos + |s|;
    UnlexCons(toks);
    SplitAtBlank(input, pos, s, more);
  }

  /** Blanks up to the end of the input lex to nothing but end of input. */
  lemma TokenizeAllSpace(input: string, pos: nat)
    requires pos <= |input| && AllSpace(input, pos)
    ensures Tokenize(input, pos) == Stream([], AtEof)
  {
  }

  lemma UnlexCons(toks: seq<Token>)
    requires toks != []
    ensures Unlex(toks) == Spell(toks[0]) + " " + Unlex(toks[1..])
  {
  }

  lemma SplitAtBlank(input: string, pos: nat, s: string, more: string)
    requires pos <= |input| && input[pos..] == s + " " + more
    ensures pos + |s| < |input|
    ensures input[pos..pos + |s|] == s && input[pos + |s|] == ' ' && input[pos + |s| + 1..] == more
  {
    assert input[pos..][..|s|] == s;
    assert input[pos..][|s|] == ' ';
    assert input[pos..][|s| + 1..] == more;
  }

  /** Spelling out two token lists one after the other. */
  lemma {:induction false} UnlexAppend(a: seq<Token>, b: seq<Token>)
    ensures Unlex(a + b) == Unlex(a) + Unlex(b)
  {
    if a != [] {
      UnlexAppend(a[1..], b);
      assert (a + b)[1..] == a[1..] + b;
    } else {
      assert a + b == b;
    }
  }

  /** Where the text of token `j` starts: after the text of the tokens
      before it. */
  function Start(toks: seq<Token>, j: nat): nat
    requires j <= |toks|
  {
    |Unlex(toks[..j])|
  }

  lemma UnlexSuffix(toks: seq<Token>, j: nat)
    requires j <= |toks|
    ensures Start(toks, j) <= |Unlex(toks)| && Unlex(toks)[Start(toks, j)..] == Unlex(toks[j..])
  {
    UnlexAppend(toks[..j], toks[j..]);
    assert toks[..j] + toks[j..] == toks;
  }

  /** The text of token `j`: its spelling from `Start(toks, j)` up to the
      blank at `q`, after which token `j + 1` starts. */
  lemma TokenText(toks: seq<Token>, j: nat) returns (q: nat)
    requires AllLexable(toks) && j < |toks|
    ensures Start(toks, j) <= q < |Unlex(toks)| && q + 1 == Start(toks, j + 1)
    ensures toks[j..] != [] && Lexable(toks[j..][0])
    ensures q == Start(toks, j) + |Spell(toks[j..][0])|
    ensures Unlex(toks)[Start(toks, j)..q] == Spell(toks[j..][0]) && Unlex(toks)[q] == ' '
  {
    var input := Unlex(toks);
    UnlexSuffix(toks, j);
    UnlexSuffix(toks, j + 1);
    q := UnlexHead(input, Start(toks, j), toks[j..]);
    assert toks[j..][1..] == toks[j + 1..] && toks[j..][0] == toks[j];
  }

  /** Token `j` lexes from where its text starts, given that the tokens
      after it lex from where theirs starts. */
  lemma StepAt(toks: seq<Token>, j: nat)
    requires AllLexable(toks) && j < |toks|
    ensures Start(toks, j) <= Start(toks, j + 1) <= |Unlex(toks)|
    ensures Tokenize(Unlex(toks), Start(toks, j + 1)) == Stream(toks[j..][1..], AtEof) ==>
            Tokenize(Unlex(toks), Start(toks, j)) == Stream(toks[j..], AtEof)
  {
    var q := TokenText(toks, j);
    TokenizeHead(Unlex(toks), Start(toks, j), toks[j..], q);
  }

  /** Lexing the spelled-out text of a token list gives back the list,
      ended by end of input. */
  lemma LexUnlex(toks: seq<Token>)
    requires AllLexable(toks)
    ensures Tokenize(Unlex(toks), 0) == Stream(toks, AtEof)
  {
    var input := Unlex(toks);
    var ends := seq(|toks| + 1, j requires 0 <= j <= |toks| => Start(toks, j));
    forall j | 0 <= j < |ends|
      ensures ends[j] <= |input|
    {
      UnlexSuffix(toks, j);
    }
    assert toks[..|toks|] == toks;
    TokenizeAllSpace(input, ends[|toks|]);
    forall j | 0 <= j < |toks|
      ensures Tokenize(input, ends[j + 1]) == Stream(toks[j..][1..], AtEof) ==>
              Tokenize(input, ends[j]) == Stream(toks[j..], AtEof)
    {
      StepAt(toks, j);
    }
    TokenizeChain(input, toks, ends, 0);
    assert ends[0] == 0 && toks[0..] == toks;
  }

  /** Backward induction along the token starts `ends`: lexing from the
      end gives nothing, and each start lexes to its token followed by
      what the next start lexes to. */
  lemma {:induction false} TokenizeChain(input: string, toks: seq<Token>, ends: seq<nat>, i: nat)
    requires |ends| == |toks| + 1 && i <= |toks|
    requires forall j | 0 <= j < |ends| :: ends[j] <= |input|
    requires Tokenize(input, ends[|toks|]) == Stream([], AtEof)
    requires forall j | 0 <= j < |toks| ::
               Tokenize(input, ends[j + 1]) == Stream(toks[j..][1..], AtEof) ==>
               Tokenize(input, ends[j]) == Stream(toks[j..], AtEof)
    ensures Tokenize(input, ends[i]) == Stream(toks[i..], AtEof)
    decreases |toks| - i
  {
    if i < |toks| {
      TokenizeChain(input, toks, ends, i + 1);
      assert toks[i..][1..] == toks[i + 1..];
    } else {
      assert toks[i..] == [];
    }
  }
}
