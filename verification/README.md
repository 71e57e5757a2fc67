# A toy-language interpreter and a buddy allocator, in Dafny

This project models two small sequential programs and proves properties of
the models.

**Interpreter/test.cpp** is an interpreter for a Pascal-like toy language.
It has three parts:

- **`gettok`**, a lexer.
- **A recursive-descent parser** that uses Kaleidoscope-style precedence
  climbing over a fixed operator table.
- **A dual-mode tree-walking evaluator.** Every node has `interpret()`, run
  for effect, and `value()`, which yields an `int`. It runs over a chain of
  `Context` frames.

**Buddy/buddy.c** is a buddy allocator. It manages 512 units carved into
power-of-two blocks, kept in ten per-level lists `headers[0..9]`.

## How the programs are represented

The interpreter's global state becomes explicit data:

- **Lexer.** The lexer's `lastChar` becomes a position in the input string.
- **Parser.** The parser's `curTok`, `IdentifierStr` and `numVal` become the
  head of a token stream (`Parser.Cur`).
- **Current frame.** The evaluator's current frame (`cContext`) is passed and
  returned in a `State`. The `State` also carries the integers left on
  standard input and those written to standard output.

Errors are modelled as follows:

- **Parse errors.** A parse error (`logError`) yields the null node `Absent`,
  and parsing continues from wherever the stream stands.
- **`Error()` calls.** Every `Error()` that terminates the process is a
  `Fatal` result.
- **Undefined behaviour.** Situations where the C++ program has undefined
  behaviour are an `Undefined` result rather than an invented meaning:
  - a null child dereferenced;
  - signed overflow;
  - a call nested in another call's arguments;
  - reading past the end of input.

User functions may recurse without bound, so the evaluator takes fuel. It
spends one unit per call.

In the allocator, each circular doubly-linked list becomes the sequence of
its blocks in list order:

- `push` appends;
- `remove_block` deletes and keeps the order of the rest.

The well-formedness invariant `Wf` has two parts:

- **Shape.** Every block at level `l` has size 2^l and starts at a multiple
  of its size.
- **Tiling.** Every unit of `[0, 512)` lies in exactly one block. This is
  stated by counting: `Total(h, x, AnyBlock) == 1`.

The owner of a unit is the `used` field of the block covering it.

## Behaviour at the edges

- **Digit runs beyond `INT_MAX`.** A run of digits above `INT_MAX` is fatal,
  because `stoi` throws and the program terminates. No value is wrapped or
  truncated.
- **Chained assignment without parentheses.** `:=` is an ordinary
  left-associative operator of the precedence table. So `x := y := 5`
  parses as `(x := y) := 5`, and running it is fatal: `name()` of a binary
  node that has a right operand calls `Error`. Only the parenthesised form
  `x := (y := 5)` sets both variables.
- **Presetting the function's own name.** Only a call evaluated for its
  value presets the callee frame's variable named after the function to 0.
  A call used as a statement does not (test.cpp:339-358 against 376-379), so
  there a body that assigns to its own name is fatal.
- **`write` takes a bare name.** `read` and `write` take an identifier, not
  an expression.
- **Function definitions need `integer`.** A definition is reachable only as
  `integer function ...`.
- **Empty bodies.** An empty body `begin end` leaves a null body, which
  running the function dereferences.
- **`write(f())`.** The program `function f(); begin end; write(f())`
  fails to parse. With its empty body the function could not run anyway.
- **Definitions among a call's arguments.** A call finds its callee before
  evaluating the arguments, but runs the definition the name has after
  them (test.cpp:360-378). An argument that is itself a definition of the
  callee's name therefore replaces what the call runs.

## Model

| member | source | states |
|---|---|---|
| `Tokens.KeywordText` | Interpreter/test.cpp:49-52 | each of the nine keyword tokens has a spelling that the reserved-word table maps back to that token |
| `Tokens.Prec` | Interpreter/test.cpp:54-57 | a token has a positive precedence exactly when it is one of the ten binary operators of the table; every other token has precedence 0 |
| `Lexer.RunEnd` | Interpreter/test.cpp:85-88 | the end of a character run: every character before it satisfies the class, and the one at it does not (or the input ends) |
| `Lexer.Scan` | Interpreter/test.cpp:77-165 | `gettok`: it reports end of input exactly when only blanks remain; every other token consumes at least one character and stays within the input |
| `Lexer.ScanNumber` | Interpreter/test.cpp:83-91 | a digit run yields a number token and consumes at least the first digit |
| `Lexer.ScanWord` | Interpreter/test.cpp:93-104 | a word never fails, yields no end marker, and consumes at least its first letter |
| `Lexer.ScanOperator` | Interpreter/test.cpp:106-163 | an operator character, when it lexes, yields a non-end token and consumes one or two characters |
| `Lexer.Tokenize` | Interpreter/test.cpp:462-464 | repeated `getNextToken`: the token sequence before the end of input or the first lexical error never contains the end marker |
| `LexerProps.RunEndIsMaximalRun` | Interpreter/test.cpp:95-96 | a run end is unique: any position bounding a maximal run is the one found |
| `LexerProps.DigitRunLexesToNumber` | Interpreter/test.cpp:83-91 | a maximal digit run after blanks is one number token with the decimal value of the digits, ending at the run's end; above INT_MAX it is fatal |
| `LexerProps.WordLexesToKeywordOrIdentifier` | Interpreter/test.cpp:93-104 | a maximal alphanumeric run starting with a letter is a keyword token exactly when it is a reserved word (the table's token), and otherwise an identifier carrying the exact text |
| `LexerProps.TwoCharacterOperators` | Interpreter/test.cpp:111-136 | `<>`, `<=`, `>=` and `:=` each lex as one token that consumes both characters |
| `LexerProps.LoneAngleKeepsLookahead` | Interpreter/test.cpp:111-129 | a `<` or `>` not followed by a character that extends it is a one-character token, and the next character is left unread |
| `LexerProps.LexicalErrors` | Interpreter/test.cpp:130-163 | `:` without `=` is fatal, and so is every character that starts no token |
| `LexerProps.DecimalStringValue` | Interpreter/test.cpp:84-89 | the decimal value of the shortest spelling of `n` is `n`, so number literals survive a spell-and-lex round trip |
| `LexerProps.ScanSpelled` | Interpreter/test.cpp:77-165 | a lexable token spelled out and followed by a blank lexes back to that token, ending just after its spelling |
| `LexerProps.LexUnlex` | Interpreter/test.cpp:77-165 | a list of lexable tokens, spelled out with blanks between them, lexes back to exactly that list followed by end of input |
| `Parser.Advance` | Interpreter/test.cpp:462-464 | `getNextToken`: it drops the current token, and fails exactly when it reaches a lexical error |
| `Parser.ParseNumberExpr` | Interpreter/test.cpp:475-479 | a number literal consumes its token |
| `Parser.ParseParenExpr` | Interpreter/test.cpp:481-490 | a parenthesised expression leaves the stream within what it was given |
| `Parser.ParseExpressions` | Interpreter/test.cpp:492-501 | a statement list leaves the stream within what it was given |
| `Parser.ParseParams` | Interpreter/test.cpp:517-535 | a successful parameter list stops at the closing `)` |
| `Parser.ParseFunctionExpr` | Interpreter/test.cpp:503-536 | a function header leaves the stream within what it was given |
| `Parser.ParseFunctionBody` | Interpreter/test.cpp:537-559 | a function body leaves the stream within what it was given |
| `Parser.ParseArgs` | Interpreter/test.cpp:569-590 | an argument list leaves the stream within what it was given |
| `Parser.ParseIdentifierExpr` | Interpreter/test.cpp:561-591 | a variable or call leaves the stream within what it was given |
| `Parser.ParseInteger` | Interpreter/test.cpp:593-603 | an `integer` form leaves the stream within what it was given |
| `Parser.ParseReadWrite` | Interpreter/test.cpp:605-639 | a `read`/`write` form leaves the stream within what it was given |
| `Parser.ParseConditionExpr` | Interpreter/test.cpp:641-657 | a conditional leaves the stream within what it was given |
| `Parser.ParsePrimary` | Interpreter/test.cpp:659-685 | a primary leaves the stream within what it was given |
| `Parser.ParseBinOpRHS` | Interpreter/test.cpp:687-710 | precedence climbing stops at a token whose precedence is below the minimum |
| `Parser.ParseExpression` | Interpreter/test.cpp:712-718 | a complete expression stops at a token that is no binary operator |
| `ParserProps.ExprRoundTrip` | Interpreter/test.cpp:712-718 | for every printable tree, its printed tokens followed by any token that ends an expression parse back to that tree, stopping at that token |
| `ParserProps.StmtsRoundTrip` | Interpreter/test.cpp:492-501 | a right-nested `;` chain of statements, printed with `;` between them, parses back to the same chain; a single statement comes back unwrapped |
| `ParserProps.ClimbConsumes` | Interpreter/test.cpp:687-710 | precedence climbing from a minimum precedence rebuilds a printed binary tree: tighter operators nest to the right, equal ones associate to the left |
| `ParserProps.PrimaryRoundTrip` | Interpreter/test.cpp:659-685 | every printable non-binary tree comes back from `parsePrimary` |
| `ParserProps.ParenRoundTrip` | Interpreter/test.cpp:481-490 | a parenthesised tree parses back to the inner tree, consuming the `)` |
| `ParserProps.ConditionRoundTrip` | Interpreter/test.cpp:641-657 | `if c then t else f` parses back to the conditional node |
| `ParserProps.ReadWriteRoundTrip` | Interpreter/test.cpp:605-639 | `read(x)` and `write(x)` parse back to their nodes |
| `ParserProps.CallRoundTrip` | Interpreter/test.cpp:561-591 | a call with or without arguments parses back to the call node |
| `ParserProps.ArgsRoundTrip` | Interpreter/test.cpp:569-590 | a comma-separated argument list parses back to the same arguments in order |
| `ParserProps.ParamsRoundTrip` | Interpreter/test.cpp:517-535 | a comma-separated parameter list parses back to the same names in order, stopping at `)` |
| `ParserProps.FunctionRoundTrip` | Interpreter/test.cpp:503-559 | `integer function NAME(params); begin body end` parses back to the definition, with an empty body as the null body |
| `ParserProps.IntegerDeclaration` | Interpreter/test.cpp:593-600 | `integer NAME` parses exactly as `NAME` alone: the keyword is dropped, and the name is a variable unless a `(` follows it |
| `ParserExamples.MinusGroupsLeft` | Interpreter/test.cpp:687-710 | `a - b - c` parses as `(a - b) - c` |
| `ParserExamples.TimesBindsTighter` | Interpreter/test.cpp:687-710 | `a + b * c` parses as `a + (b * c)` |
| `ParserExamples.ComparisonBindsLooser` | Interpreter/test.cpp:54-57 | `a < b + 1` parses as `a < (b + 1)` |
| `ParserExamples.ChainedAssignmentGroupsLeft` | Interpreter/test.cpp:54-57 | `x := y := 5` parses as `(x := y) := 5` |
| `Pipeline.ProgramRoundTrip` | Interpreter/test.cpp:492-501 | a printed statement list, spelled out as text, lexes to its tokens and parses back to the same tree, ending at the end of input |
| `Pipeline.ProgramLexes` | Interpreter/test.cpp:77-165 | the text of a printed statement list lexes to exactly its tokens |
| `Pipeline.ProgramParses` | Interpreter/test.cpp:492-501 | the tokens of a printed statement list parse back to it, with nothing left over |
| `Eval.Declare` | Interpreter/test.cpp:220-225 | `Variable.interpret()`: afterwards the name is declared; an existing variable keeps its value; a new one is 0 |
| `Eval.Bind` | Interpreter/test.cpp:402-404 | binding parameters declares exactly the old names plus the parameters, and keeps every non-parameter's value |
| `Eval.BindLastWins` | Interpreter/test.cpp:402-404 | a parameter not repeated later in the list is bound to its positional argument |
| `Eval.Name` | Interpreter/test.cpp:240-245 | `name()`: a non-empty name it returns occurs in the node |
| `Eval.Compare` | Interpreter/test.cpp:288-305 | a comparison yields 0 or 1, and 1 exactly when the host relation holds |
| `Eval.Arith` | Interpreter/test.cpp:296-301 | `+ - *` yield the exact result when it fits in 32 bits, and undefined behaviour (overflow) exactly when it does not |
| `Eval.Operate` | Interpreter/test.cpp:279-306 | an operator node's result after its operands: comparisons always succeed as `Compare`, arithmetic as `Arith`, and the state is unchanged |
| `Eval.Interp` | Interpreter/test.cpp:198-460 | `interpret()` never loses a variable or function of the frame, keeps its arguments, consumes input from the front, and only appends output |
| `Eval.Value` | Interpreter/test.cpp:198-460 | `value()` keeps the same frame discipline as `interpret()` |
| `Eval.EvalArgs` | Interpreter/test.cpp:369-371 | the argument loop yields one value per argument, evaluated in the caller's frame |
| `Eval.Invoke` | Interpreter/test.cpp:334-384 | a call keeps the caller's frame discipline, and in statement mode yields 0; the definition it runs is the one its name has after the arguments (`EvalProps.CallRunsBodyInFreshFrame`) |
| `Eval.RunProcedure` | Interpreter/test.cpp:726-727 | a procedure runs in a fresh frame with no arguments and only consumes input |
| `EvalProps.ComparisonIsZeroOrOne` | Interpreter/test.cpp:288-305 | a comparison node evaluates to exactly 0 or 1: 1 when the relation holds between the operands, evaluated left to right |
| `EvalProps.LiteralArithmetic` | Interpreter/test.cpp:296-301 | `+ - *` on two literals give the host result, or undefined overflow outside 32 bits |
| `EvalProps.InterpretOperatorIsNoop` | Interpreter/test.cpp:262-271 | run for effect, an arithmetic or comparison node changes nothing and does not evaluate its operands |
| `EvalProps.DeclareIsIdempotent` | Interpreter/test.cpp:220-225 | mentioning a variable declares it as 0 only if absent, and doing it twice is doing it once |
| `EvalProps.ValueOfVariable` | Interpreter/test.cpp:227 | reading a variable yields its value; reading an unseen one inserts it as 0 and yields 0 |
| `EvalProps.AssignmentToUnknownIsFatal` | Interpreter/test.cpp:255-260 | assigning to a name the frame lacks is fatal in both modes |
| `EvalProps.AssignmentValueIsStored` | Interpreter/test.cpp:282-286 | an assignment's value is the value it stored, and running it for effect reaches the same state |
| `EvalProps.ChainedAssignment` | Interpreter/test.cpp:282-286 | `x := (y := 5)` sets both variables to 5 and nothing else |
| `EvalProps.UnparenthesisedChainIsFatal` | Interpreter/test.cpp:240-245 | `(x := y) := 5` is fatal in both modes, since its target has no name |
| `EvalProps.EchoOneInteger` | Interpreter/test.cpp:435-456 | `read(x); write(x)` consumes the next input integer, stores it in `x` and writes it out |
| `EvalProps.IoErrors` | Interpreter/test.cpp:449-453 | `write` of an unknown name is fatal; `read` with no input left is undefined |
| `EvalProps.TrailingSemicolonIsUndefined` | Interpreter/test.cpp:251-254 | a `;` node with a null second statement dereferences it once the first has run |
| `EvalProps.EmptyBodyIsUndefined` | Interpreter/test.cpp:417-422 | running a function whose body is null is undefined |
| `EvalProps.NestedCallIsUndefined` | Interpreter/test.cpp:366-371 | a call among another call's arguments is undefined in both modes |
| `EvalProps.CallOfUnknownIsFatal` | Interpreter/test.cpp:360-364 | a callee missing from the current frame's function table is fatal in both modes |
| `EvalProps.CallRunsBodyInFreshFrame` | Interpreter/test.cpp:366-422 | a call runs the definition its name has once the arguments are evaluated, and is fatal when that definition's parameter count differs from the arguments. Otherwise the body runs in a fresh frame that holds the arguments, the parameters bound to them (over the function's own name at 0 in value mode) and only the function itself; the caller's frame is back afterwards; the value-mode result is the callee's variable named after the function |
| `EvalProps.ArgumentRedefinesCallee` | Interpreter/test.cpp:366-378 | with `f` taking one parameter, `f(integer function f(); begin x end)` runs the new parameterless `f` on one argument, which is fatal in both modes |
| `EvalProps.StatementCallCannotAssignOwnName` | Interpreter/test.cpp:339-358 | a function that returns through its own name is fatal when called as a statement and yields the assigned value when called as an expression |
| `EvalProps.BindKeepsOthers` | Interpreter/test.cpp:402-404 | binding parameters never disturbs a name that is not a parameter |
| `EvalProps.CallKeepsCallerVariable` | Interpreter/test.cpp:366-383 | whatever the body does, a call whose arguments never mention `x` leaves the caller's `x` as it was |
| `EvalProps.LiteralCallKeepsCallerFrame` | Interpreter/test.cpp:366-383 | with literal arguments a call leaves the caller's frame exactly as it was |
| `EvalProps.DefaultReturnIsZero` | Interpreter/test.cpp:376-379 | a value-mode call whose body (of the definition the name has after the arguments) never mentions the function's name returns 0 |
| `EvalProps.ChainRunsLeftToRight` | Interpreter/test.cpp:251-254 | a right-nested `;` chain runs its statements left to right, stopping at the first error |
| `BuddyHeap.Remove` | Buddy/buddy.c:30-35 | `remove_block`: the list loses exactly the one block, the blocks before it stay where they were and those after it move up one place, keeping their order |
| `BuddyHeap.FloorLog2` | Buddy/buddy.c:45-51 | `f`: for `n >= 1` the result `r` satisfies 2^r <= n < 2^(r+1); for `n <= 1` it is 0 |
| `BuddyHeap.F` | Buddy/buddy.c:45-51 | the shift loop of `f` computes the floor of log2, and 0 for 0 |
| `BuddyHeap.FloorLog2Unique` | Buddy/buddy.c:45-51 | the power-of-two bounds determine `f`'s result |
| `Buddy.Init` | Buddy/buddy.c:136-144 | levels 0-8 are empty, level 9 holds one free block of 512 units at 0, the heap is well formed, and every unit is free |
| `Buddy.Split` | Buddy/buddy.c:53-64 | the block leaves its list, the rest of which keeps its order, and its two halves are appended, in that order, after the old contents of the list for their size; every other list is unchanged. The lower half is free and starts where the block did; the upper half starts half-way and keeps the block's owner; the index of the lower half is returned |
| `Buddy.SplitPreserves` | Buddy/buddy.c:53-64 | splitting a block of a well-formed heap leaves it well formed, with both halves one level down; a free block's split moves no unit to another owner |
| `BuddyProps.SplitThenMergeImp` | Buddy/buddy.c:95-102 | the halves of a split are buddies in either order, cover exactly the block's units, and `merge_imp` turns them back into the (free) block |
| `BuddyProps.HalvesAreBuddies` | Buddy/buddy.c:86-93 | the halves of a level-`l` block have size 2^(l-1) and are buddies |
| `BuddyProps.IsBuddySymmetric` | Buddy/buddy.c:86-93 | `is_buddy` does not depend on the order of its arguments |
| `Buddy.IsBuddy` | Buddy/buddy.c:86-93 | two blocks are buddies exactly when, taken in address order, the first ends where the second starts and starts at a multiple of twice its size; buddies never share a unit |
| `Buddy.FreeBuddy` | Buddy/buddy.c:111 | the block found by the scan is a different block of the list, free, and shares no unit with the block being merged |
| `Buddy.MergeImp` | Buddy/buddy.c:95-102 | the merged block starts where the lower of the two does and keeps its owner; for equal sizes it is twice as large and covers exactly the units of the two |
| `Buddy.FirstBuddy` | Buddy/buddy.c:110-111 | the first index from `i` on, in list order, holding a free buddy of the block (a different block), or the list length when none does |
| `Buddy.Fuse` | Buddy/buddy.c:111-116 | one merge round: both blocks leave their list, the rest keeping its order; the list one level up gains, after its old contents, one free block that starts at the lower start with twice the size and covers exactly the units of the two; every other list is unchanged and the heap holds one block fewer |
| `Buddy.NoBuddyAtTop` | Buddy/buddy.c:106-108 | the top level of a well-formed heap has no buddy pair, so a merge never reaches beyond `headers[9]` |
| `Buddy.FusePreserves` | Buddy/buddy.c:111-117 | fusing two free buddies keeps the heap well formed and moves no unit to another owner |
| `Buddy.Merge` | Buddy/buddy.c:104-121 | merging keeps the heap well formed and keeps every unit's owner when the block is free. Without a free buddy nothing changes; with one, the number of blocks drops. The lists below the block's level are untouched. The units of a free block end up in a free block that has no free buddy left in its list, which is where repeated merging stops; every block sharing no unit with that final block is still in its list, in the same order, and no such block is added |
| `Buddy.SetUsed` | Buddy/buddy.c:78 | the chosen block gets the new owner and keeps its size and start; every other block stays where it was, unchanged, and every list keeps its length |
| `Buddy.SetUsedEffect` | Buddy/buddy.c:78 | changing one block's owner keeps the heap well formed and recounts only that block's units |
| `Buddy.FirstFree` | Buddy/buddy.c:73-74 | the first free block of a list, with every block before it in use |
| `Buddy.FindFree` | Buddy/buddy.c:69-82 | the first free block, in list order, of the lowest level from `off` up that has one; none exactly when every block from `off` up is in use |
| `Buddy.SplitDown` | Buddy/buddy.c:75-77 | the split loop ends with a free block smaller than twice the request, inside the original block and starting where it did (the lower half is kept each time), and at least the largest power of two within the request if the original was. The heap stays well formed with every owner kept, and every list keeps its old blocks in order, except that the block split first may leave its list |
| `Buddy.SplitDownKeeps` | Buddy/buddy.c:75-77 | the lists above the block are unchanged; when a split happens, the block leaves its list, the rest of which keeps its order, and the block found is a new one, appended after the old blocks of a lower list |
| `Buddy.Request` | Buddy/buddy.c:66-84 | when some level from `f(size)` up has a free block, one block smaller than twice `size` and at least 2^f(size) is given to `id`; its units were free, and every other unit keeps its owner. It starts where the first free block, in list order, of the lowest eligible level does, and every list keeps, in order, all the blocks it had before that one. Otherwise the heap is unchanged |
| `Buddy.RequestGrants` | Buddy/buddy.c:75-79 | the block the split loop leaves, once given to `id`, meets everything `Request` promises |
| `BuddyProps.PowerOfTwoBetween` | Buddy/buddy.c:75 | the only block size of a well-formed heap from 2^k to below 2^(k+1) is 2^k |
| `BuddyProps.RequestExactForPowerOfTwo` | Buddy/buddy.c:66-84 | a request for a power of two up to 512 is met, if at all, with a block of exactly that size |
| `BuddyProps.DistinctBlocksDisjoint` | Buddy/buddy.c:42-43 | two different blocks of a well-formed heap never share a unit |
| `BuddyProps.FreeUnitCounts` | Buddy/buddy.c:42-43 | a free unit of a well-formed heap counts once for owner 0 and never for another owner |
| `Buddy.FirstOwned` | Buddy/buddy.c:126-127 | the first block of a list owned by `id` with exactly `size` units, with none before it |
| `Buddy.Freeb` | Buddy/buddy.c:123-134 | when level `f(size)` holds a block of `id` with that exact size, the first such block's units become free and every other unit keeps its owner; they end up in a free block with no free buddy left in its list, and every block sharing no unit with that block is still in its list, in the same order, with none added. Otherwise the heap is unchanged. The heap stays well formed |
| `Buddy.FreebReleases` | Buddy/buddy.c:127-129 | freeing a used block and merging it frees exactly its units |
| `BuddyProps.RequestThenFreeRestoresOwners` | Buddy/buddy.c:123-134 | for an owner holding nothing, freeing the block a request granted gives every unit back to the owner it had before the request |

## Left out

- The read-eval loop (`runMainLoop`, `handleProcedure`'s resynchronisation,
  the prompt) and `main`. They are terminal I/O around the core.
  `Eval.RunProcedure` models only the run of a parsed procedure in a fresh
  frame.
- Real standard input and output. Input is a sequence of integers consumed
  from the front, and output is a sequence appended to.
  - Non-numeric input is not modelled. `cin >> i` failing on such input is
    not represented.
  - Reading with no input left is reported as undefined, because `i` stays
    uninitialised.
- The C++ ownership plumbing: `unique_ptr`/`shared_ptr`, `DeferCaller`,
  `clean_` and `subContext_`. The callee frame is passed explicitly. The
  unused `ret_` field of `Context` is dropped.
- `Eval.Interp` and `Eval.Value`: operands are evaluated left to right, which
  is one of the orders C++ allows.
- `Eval.Interp` and `Eval.Value`: the fuel bound makes a deep or
  non-terminating recursion end in `OutOfFuel`. The C++ program would
  instead exhaust its stack or loop.
- `Eval.Interp`: the assignment's iterator into `variables_` is assumed to
  stay valid while the right-hand side runs. The model writes the stored
  name after the right-hand side.
- `Eval.Invoke`: the call's iterator into `funcs_` is assumed to stay valid
  while the arguments run. An argument that defines a new name may rehash
  the `unordered_map` and invalidate it, which is undefined behaviour; the
  model reads the name's definition after the arguments, as the code does
  when no rehash happens.
- The parse functions state in their own contracts only where the stream
  stops. What they build is stated by the round-trip lemmas of
  `ParserProps`, relative to a printer that inserts parentheses only where
  the precedence table needs them. Parses of malformed input are not
  characterised beyond their result being the null node. One line each:
- `Parser.ParseNumberExpr`: states only that the token is consumed; `ParserProps.PrimaryRoundTrip` states the node.
- `Parser.ParseParenExpr`: states only where the stream stops; `ParserProps.ParenRoundTrip` states the tree.
- `Parser.ParseExpressions`: states only where the stream stops; `ParserProps.StmtsRoundTrip` states the chain.
- `Parser.ParseParams`: states only the stop at `)`; `ParserProps.ParamsRoundTrip` states the names.
- `Parser.ParseFunctionExpr`: states only where the stream stops; `ParserProps.FunctionRoundTrip` states the definition.
- `Parser.ParseFunctionBody`: states only where the stream stops; `ParserProps.FunctionRoundTrip` states the body.
- `Parser.ParseArgs`: states only where the stream stops; `ParserProps.ArgsRoundTrip` states the arguments.
- `Parser.ParseIdentifierExpr`: states only where the stream stops; `ParserProps.CallRoundTrip` states the node.
- `Parser.ParseInteger`: states only where the stream stops; `ParserProps.IntegerDeclaration` states what `integer NAME` parses to and `ParserProps.FunctionRoundTrip` what `integer function` parses to.
- `Parser.ParseReadWrite`: states only where the stream stops; `ParserProps.ReadWriteRoundTrip` states the node.
- `Parser.ParseConditionExpr`: states only where the stream stops; `ParserProps.ConditionRoundTrip` states the node.
- `Parser.ParsePrimary`: states only where the stream stops; `ParserProps.PrimaryRoundTrip` states the node.
- `Parser.ParseBinOpRHS`: states only the precedence stop; `ParserProps.ClimbConsumes` states the tree.
- `Parser.ParseExpression`: states only the stop at a non-operator; `ParserProps.ExprRoundTrip` states the tree.
- `LexerProps.LexUnlex` covers token lists spelled with one blank after each
  token. Other layouts are covered only token by token by the `Scan` lemmas.
- Characters are classified as in the "C" locale. `isalpha` and the others
  in other locales are not modelled.
- The `default: Error("bad op_")` branches of `BinaryExprAST::interpret`
  and `value` are unreachable. The model's operator type holds only the
  codes the parser builds, and a sequencing node's `value()` is the one case
  that reaches `default` (a `Fatal` result).
- `Buddy.Request`: the size must be at least 1. With size 0 the source's
  split loop never ends.
- `Buddy.Request`: non-power-of-two sizes keep the source's behaviour. The
  search starts at level `f(size)`, so the granted block can be smaller than
  the request (size 5 can get 4 units). The contract states the bound
  2^f(size) <= size of block < 2 * size.
- `Buddy.Request`: `id` must be positive, as the source's `assert(id > 0)`
  demands; a failed assertion aborts the program, which is not modelled.
- `Buddy.Freeb`: `id` must be positive, as the source's `assert(id > 0 &&
  size > 0)` demands; the size is at least 1 for the same reason.
- `Buddy.Freeb`: `f(size)` must be below 10. The source indexes
  `headers[f(size)]` unchecked.
- `Buddy.IsBuddy`: both sizes must be positive. With a zero size the
  source's `%` divides by zero. Every block of a well-formed heap has
  positive size.
- `Buddy.Merge`: its precondition is a well-formed heap. In such a heap
  `f(b->size)` is the block's level, so the `off >= 10` exit is never taken.
- `size_t` arithmetic is unbounded in the model. Wrap-around could only
  matter for sizes of 2^63 or more, and those fail `f(size) < 10` before any
  arithmetic.
- `malloc`/`free`, `display`, and the `printf`/`scanf` driver of buddy.c.
  They are memory and terminal I/O.
- ProducerAndConsumer/pac.c is not part of this model. It is a
  threads-and-condition-variables demo using `rand()`.
