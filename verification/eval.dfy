/** The dual-mode evaluator (Interpreter/test.cpp:198-460): `Interp` is
    `interpret()`, run for effect, and `Value` is `value()`, which yields an
    `int`.

    The C++ program keeps the current frame in the global `cContext`; here it
    is passed and returned explicitly inside a `State`, which also carries the
    integers left on standard input and those written to standard output.
    A call runs the callee in a fresh frame that the caller never sees again,
    so the caller's frame after a call is the frame after its arguments were
    evaluated.

    User functions may recurse without bound, so evaluation takes `fuel`,
    spent one unit per call; `OutOfFuel` says the fuel ran out, not that the
    program fails. */
module Eval {
  import opened Base
  import opened Ast

  /** `Context` (test.cpp:61-67): the actual arguments of the call that
      opened the frame, its variables and its function table. `ret_` is never
      used; `subContext_` is the callee frame, passed explicitly. */
  datatype Frame = Frame(args: seq<Int32>, vars: map<string, Int32>, funcs: map<string, Expr>)

  datatype State = State(frame: Frame, input: seq<Int32>, output: seq<Int32>)

  /** A `value()` result together with the state after it. */
  datatype Valued = Valued(v: Int32, st: State)

  /** The arguments of a call, evaluated, and the caller's state after them. */
  datatype Collected = Collected(vals: seq<Int32>, st: State)

  const EmptyFrame := Frame([], map[], map[])

  /** `after` is what is left of `before` once some prefix was read. */
  predicate Consumed(before: seq<Int32>, after: seq<Int32>) {
    |after| <= |before| && before[|before| - |after|..] == after
  }

  /** What an evaluation step may do to the state: the frame keeps its
      arguments and never loses a variable or a function, input is only
      consumed from the front and output only appended. */
  predicate Evolves(st: State, st': State) {
    && st'.frame.args == st.frame.args
    && st.frame.vars.Keys <= st'.frame.vars.Keys
    && st.frame.funcs.Keys <= st'.frame.funcs.Keys
    && Consumed(st.input, st'.input)
    && st.output <= st'.output
  }

  lemma EvolvesTrans(a: State, b: State, c: State)
    requires Evolves(a, b) && Evolves(b, c)
    ensures Evolves(a, c)
  {
    var k := |a.input| - |b.input|;
    assert c.input == a.input[k..][|b.input| - |c.input|..];
  }

  function SetVar(st: State, x: string, v: Int32): (st': State)
    ensures Evolves(st, st')
    ensures st'.frame.vars == st.frame.vars[x := v]
    ensures st'.frame.funcs == st.frame.funcs
  {
    st.(frame := st.frame.(vars := st.frame.vars[x := v]))
  }

  /** `VariableExprAST::interpret()`: declare `x` as 0 unless it exists. */
  function Declare(st: State, x: string): (st': State)
    ensures Evolves(st, st') && x in st'.frame.vars
    ensures x in st.frame.vars ==> st' == st
    ensures x !in st.frame.vars ==> st' == SetVar(st, x, 0)
  {
    if x in st.frame.vars then st else SetVar(st, x, 0)
  }

  /** `PrototypeAST::value()`'s binding loop: parameters are assigned in
      order (`BindLastWins` says a repeated name keeps the last argument). */
  function Bind(vars: map<string, Int32>, ps: seq<string>, vals: seq<Int32>): (r: map<string, Int32>)
    requires |ps| == |vals|
    ensures r.Keys == vars.Keys + set i | 0 <= i < |ps| :: ps[i]
    ensures forall x | x in vars && x !in ps :: r[x] == vars[x]
    decreases |ps|
  {
    if ps == [] then vars
    else Bind(vars[ps[0] := vals[0]], ps[1..], vals[1..])
  }

  /** A parameter not repeated later in the list is bound to its argument. */
  lemma {:induction false} BindLastWins(vars: map<string, Int32>, ps: seq<string>, vals: seq<Int32>, i: nat)
    requires |ps| == |vals| && i < |ps| && ps[i] !in ps[i + 1..]
    ensures ps[i] in Bind(vars, ps, vals) && Bind(vars, ps, vals)[ps[i]] == vals[i]
    decreases |ps|
  {
    if i == 0 {
      assert ps[1..] == ps[i + 1..];
    } else {
      assert ps[1..][i - 1] == ps[i] && vals[1..][i - 1] == vals[i];
      assert ps[1..][i - 1 + 1..] == ps[i + 1..];
      BindLastWins(vars[ps[0] := vals[0]], ps[1..], vals[1..], i - 1);
    }
  }

  /** `ExprAST::name()`: the name of a variable; a binary node forwards to
      its left operand unless it has a right one; every other node has the
      empty name. */
  function Name(e: Expr): (r: Result<string>)
    ensures r.Ok? && r.value != "" ==> Occurs(e, r.value)
  {
    match e
    case Absent => Fail(Undefined(NullNode))
    case VariableExpr(x) => Ok(x)
    case BinaryExpr(_, l, r) => if r != Absent then Fail(Fatal(NoBinaryName)) else Name(l)
    case NumberExpr(_) => Ok("")
    case ConditionExpr(_, _, _) => Ok("")
    case CallExpr(_, _) => Ok("")
    case FunctionExpr(_, _, _) => Ok("")
    case ReadExpr(_) => Ok("")
    case WriteExpr(_) => Ok("")
  }

  /** `x` is spelled somewhere in `e`: as a variable, a `read`/`write`
      target or a parameter. Calls and definitions by name do not count. */
  predicate Occurs(e: Expr, x: string) {
    match e
    case Absent => false
    case NumberExpr(_) => false
    case VariableExpr(y) => y == x
    case BinaryExpr(_, l, r) => Occurs(l, x) || Occurs(r, x)
    case ConditionExpr(c, t, f) => Occurs(c, x) || Occurs(t, x) || Occurs(f, x)
    case CallExpr(_, args) => exists i | 0 <= i < |args| :: Occurs(args[i], x)
    case FunctionExpr(_, ps, body) => x in ps || Occurs(body, x)
    case ReadExpr(y) => y == x
    case WriteExpr(y) => y == x
  }

  /** The host relation a comparison operator tests. */
  predicate Holds(op: BinOp, a: int, b: int)
    requires IsCompare(op)
  {
    match op
    case OpNeq => a != b
    case OpEq => a == b
    case OpLess => a < b
    case OpGreater => a > b
    case OpLe => a <= b
    case OpGe => a >= b
  }

  /** A C++ `bool` converted to `int`. */
  function Compare(op: BinOp, a: Int32, b: Int32): (r: Int32)
    requires IsCompare(op)
    ensures r == 0 || r == 1
    ensures r == 1 <==> Holds(op, a, b)
  {
    if Holds(op, a, b) then 1 else 0
  }

  /** `+ - *` on `int`; a result outside the 32-bit range is signed
      overflow, which is undefined. */
  function Arith(op: BinOp, a: Int32, b: Int32): (r: Result<Int32>)
    requires IsArith(op)
    ensures var exact := if op == OpPlus then a + b else if op == OpMinus then a - b else a * b;
            (r.Ok? <==> InInt32(exact)) && (r.Ok? ==> r.value == exact)
    ensures r.Fail? ==> r.error == Undefined(Overflow)
  {
    var exact := match op
      case OpPlus => a + b
      case OpMinus => a - b
      case OpMul => a * b;
    if InInt32(exact) then Ok(exact) else Fail(Undefined(Overflow))
  }

  /** The `switch` on the operator in `BinaryExprAST::value()`, once both
      operands are evaluated; `st` is the state after the right one. */
  function Operate(op: BinOp, a: Int32, b: Int32, st: State): (r: Result<Valued>)
    requires op != OpSeq && op != OpAssign
    ensures r.Ok? ==> r.value.st == st
    ensures IsCompare(op) ==> r == Ok(Valued(Compare(op, a, b), st))
    ensures !IsCompare(op) ==> r.Ok? == Arith(op, a, b).Ok?
  {
    if IsCompare(op) then Ok(Valued(Compare(op, a, b), st))
    else
      var n :- Arith(op, a, b);
      Ok(Valued(n, st))
  }

  /** `interpret()`. `collecting` is set while the current frame is
      collecting call arguments: a call then would overwrite the frame's
      `subContext_` under construction. */
  function Interp(e: Expr, st: State, collecting: bool, fuel: nat): (r: Result<State>)
    ensures r.Ok? ==> Evolves(st, r.value)
    decreases fuel, Size(e), 1
  {
    match e
    case Absent => Fail(Undefined(NullNode))
    case NumberExpr(_) => Ok(st)
    case VariableExpr(x) => Ok(Declare(st, x))
    case BinaryExpr(op, l, r) =>
      if op == OpSeq then
        var st1 :- Interp(l, st, collecting, fuel);
        var st2 :- Interp(r, st1, collecting, fuel);
        EvolvesTrans(st, st1, st2);
        Ok(st2)
      else if op == OpAssign then
        var name :- Name(l);
        if name !in st.frame.vars then Fail(Fatal(UnknownVariable(name)))
        else
          var rv :- Value(r, st, collecting, fuel);
          EvolvesTrans(st, rv.st, SetVar(rv.st, name, rv.v));
          Ok(SetVar(rv.st, name, rv.v))
      else Ok(st)
    case ConditionExpr(c, t, f) =>
      var cv :- Value(c, st, collecting, fuel);
      var st2 :- if cv.v != 0 then Interp(t, cv.st, collecting, fuel)
                 else Interp(f, cv.st, collecting, fuel);
      EvolvesTrans(st, cv.st, st2);
      Ok(st2)
    case CallExpr(callee, args) =>
      var res :- Invoke(callee, args, st, collecting, fuel, false);
      Ok(res.st)
    case FunctionExpr(name, _, _) =>
      Ok(st.(frame := st.frame.(funcs := st.frame.funcs[name := e])))
    case ReadExpr(x) =>
      if |st.input| == 0 then Fail(Undefined(InputExhausted))
      else Ok(SetVar(st.(input := st.input[1..]), x, st.input[0]))
    case WriteExpr(x) =>
      if x !in st.frame.vars then Fail(Fatal(UnknownVariable(x)))
      else Ok(st.(output := st.output + [st.frame.vars[x]]))
  }

  /** `value()`. */
  function Value(e: Expr, st: State, collecting: bool, fuel: nat): (r: Result<Valued>)
    ensures r.Ok? ==> Evolves(st, r.value.st)
    decreases fuel, Size(e), 1
  {
    match e
    case Absent => Fail(Undefined(NullNode))
    case NumberExpr(n) => Ok(Valued(n, st))
    case VariableExpr(x) =>
      var st1 := Declare(st, x);
      Ok(Valued(st1.frame.vars[x], st1))
    case BinaryExpr(op, l, r) =>
      if r == Absent then Value(l, st, collecting, fuel)
      else if op == OpSeq then Fail(Fatal(BadOperator))
      else if op == OpAssign then
        var name :- Name(l);
        if name !in st.frame.vars then Fail(Fatal(UnknownVariable(name)))
        else
          var rv :- Value(r, st, collecting, fuel);
          EvolvesTrans(st, rv.st, SetVar(rv.st, name, rv.v));
          Ok(Valued(rv.v, SetVar(rv.st, name, rv.v)))
      else
        var a :- Value(l, st, collecting, fuel);
        var b :- Value(r, a.st, collecting, fuel);
        EvolvesTrans(st, a.st, b.st);
        Operate(op, a.v, b.v, b.st)
    case ConditionExpr(_, _, _) => Ok(Valued(0, st))
    case CallExpr(callee, args) => Invoke(callee, args, st, collecting, fuel, true)
    case FunctionExpr(name, ps, body) =>
      var st1 := st.(frame := st.frame.(funcs := st.frame.funcs[name := e]));
      if |ps| != |st1.frame.args| then Fail(Fatal(ArityMismatch(name)))
      else
        var st2 := st1.(frame := st1.frame.(vars := Bind(st1.frame.vars, ps, st1.frame.args)));
        assert Size(body) < Size(e);
        var st3 :- Interp(body, st2, collecting, fuel);
        EvolvesTrans(st, st2, st3);
        Ok(Valued(0, st3))
    case ReadExpr(_) => Ok(Valued(0, st))
    case WriteExpr(_) => Ok(Valued(0, st))
  }

  /** The `push_back(arg->value())` loop of a call, in the caller's frame. */
  function EvalArgs(args: seq<Expr>, st: State, fuel: nat): (r: Result<Collected>)
    ensures r.Ok? ==> |r.value.vals| == |args| && Evolves(st, r.value.st)
    decreases fuel, SizeList(args), 2
  {
    if args == [] then Ok(Collected([], st))
    else
      var a :- Value(args[0], st, true, fuel);
      var rest :- EvalArgs(args[1..], a.st, fuel);
      EvolvesTrans(st, a.st, rest.st);
      Ok(Collected([a.v] + rest.vals, rest.st))
  }

  /** `CallExprAST::interpret()` (`valueMode` false) and `value()`
      (`valueMode` true). The callee is looked up in the current frame only;
      its arguments are evaluated in the caller; the body runs in a fresh
      frame holding just the arguments and, in value mode, the function's
      own name preset to 0, which is read back as the result. The body run
      is the definition the name has once the arguments are evaluated: an
      argument that is itself a definition re-registers the name. */
  function Invoke(callee: string, args: seq<Expr>, st: State, collecting: bool, fuel: nat,
                  valueMode: bool): (r: Result<Valued>)
    ensures r.Ok? ==> Evolves(st, r.value.st)
    ensures r.Ok? && !valueMode ==> r.value.v == 0
    decreases fuel, SizeList(args), 3
  {
    if callee !in st.frame.funcs then Fail(Fatal(UnknownFunction(callee)))
    else if collecting then Fail(Undefined(NestedCall))
    else
      var c :- EvalArgs(args, st, fuel);
      if fuel == 0 then Fail(OutOfFuel)
      else
        var fn := c.st.frame.funcs[callee];
        var calleeFrame := Frame(c.vals, if valueMode then map[callee := 0] else map[], map[]);
        var done :- Value(fn, State(calleeFrame, c.st.input, c.st.output), false, fuel - 1);
        var ret := if valueMode && callee in done.st.frame.vars then done.st.frame.vars[callee] else 0;
        var after := State(c.st.frame, done.st.input, done.st.output);
        EvolvesTrans(st, c.st, after);
        Ok(Valued(ret, after))
  }

  /** `handleProcedure` running a parsed procedure: a fresh frame. */
  function RunProcedure(p: Expr, input: seq<Int32>, fuel: nat): (r: Result<State>)
    ensures r.Ok? ==> r.value.frame.args == [] && Consumed(input, r.value.input)
  {
    Interp(p, State(EmptyFrame, input, []), false, fuel)
  }
}
