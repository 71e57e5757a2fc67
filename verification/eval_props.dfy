/** Properties of the evaluator: what each kind of node does in each mode,
    how calls bind and isolate frames, and that statement lists run left to
    right. */
module EvalProps {
  import opened Base
  import opened Ast
  import opened Eval

  // ---------------------------------------------------------------------
  // Operators

  /** A comparison yields exactly 0 or 1: 1 when the host relation holds
      between the operands, evaluated left to right. */
  lemma ComparisonIsZeroOrOne(op: BinOp, l: Expr, r: Expr, st: State, collecting: bool, fuel: nat)
    requires IsCompare(op) && r != Absent
    ensures var res := Value(BinaryExpr(op, l, r), st, collecting, fuel);
            res.Ok? ==> res.value.v == 0 || res.value.v == 1
    ensures var a := Value(l, st, collecting, fuel);
            a.Ok? ==>
              var b := Value(r, a.value.st, collecting, fuel);
              b.Ok? ==>
                Value(BinaryExpr(op, l, r), st, collecting, fuel) ==
                Ok(Valued(if Holds(op, a.value.v, b.value.v) then 1 else 0, b.value.st))
  {
    OperatorValue(op, l, r, st, collecting, fuel);
  }

  /** `value()` of an operator node: the left operand, then the right one
      in the state the left one left, then the operator. */
  lemma OperatorValue(op: BinOp, l: Expr, r: Expr, st: State, collecting: bool, fuel: nat)
    requires op != OpSeq && op != OpAssign && r != Absent
    ensures Value(BinaryExpr(op, l, r), st, collecting, fuel) ==
            match Value(l, st, collecting, fuel)
            case Fail(e) => Fail(e)
            case Ok(a) =>
              match Value(r, a.st, collecting, fuel)
              case Fail(e) => Fail(e)
              case Ok(b) => Operate(op, a.v, b.v, b.st)
  {
  }

  /** `+ - *` on two literals give the host result, and overflow outside
      the 32-bit range is reported as undefined. */
  lemma LiteralArithmetic(op: BinOp, a: Int32, b: Int32, st: State, collecting: bool, fuel: nat)
    requires IsArith(op)
    ensures var exact := if op == OpPlus then a + b else if op == OpMinus then a - b else a * b;
            Value(BinaryExpr(op, NumberExpr(a), NumberExpr(b)), st, collecting, fuel) ==
            if InInt32(exact) then Ok(Valued(exact, st)) else Fail(Undefined(Overflow))
  {
    assert Value(NumberExpr(a), st, collecting, fuel) == Ok(Valued(a, st));
    assert Value(NumberExpr(b), st, collecting, fuel) == Ok(Valued(b, st));
    var n := Arith(op, a, b);
    assert Value(BinaryExpr(op, NumberExpr(a), NumberExpr(b)), st, collecting, fuel) ==
           if n.Ok? then Ok(Valued(n.value, st)) else Fail(n.error);
  }

  /** Run for effect, an arithmetic or comparison node does nothing: its
      operands are not even evaluated, so a missing one does no harm. */
  lemma InterpretOperatorIsNoop(op: BinOp, l: Expr, r: Expr, st: State, collecting: bool, fuel: nat)
    requires IsArith(op) || IsCompare(op)
    ensures Interp(BinaryExpr(op, l, r), st, collecting, fuel) == Ok(st)
  {
  }

  // ---------------------------------------------------------------------
  // Variables

  /** Mentioning a variable declares it as 0 if it is new and leaves it
      alone otherwise, so doing it twice is doing it once. */
  lemma DeclareIsIdempotent(x: string, st: State, collecting: bool, fuel: nat)
    ensures var r := Interp(VariableExpr(x), st, collecting, fuel);
            && r.Ok?
            && r.value.frame.vars == (if x in st.frame.vars then st.frame.vars else st.frame.vars[x := 0])
            && r.value.input == st.input && r.value.output == st.output
            && Interp(VariableExpr(x), r.value, collecting, fuel) == r
  {
  }

  /** Reading a variable yields its value; reading an unseen one inserts it
      as 0 and yields 0. */
  lemma ValueOfVariable(x: string, st: State, collecting: bool, fuel: nat)
    ensures x in st.frame.vars ==>
              Value(VariableExpr(x), st, collecting, fuel) == Ok(Valued(st.frame.vars[x], st))
    ensures x !in st.frame.vars ==>
              Value(VariableExpr(x), st, collecting, fuel) == Ok(Valued(0, SetVar(st, x, 0)))
  {
  }

  /** Assigning to a name the frame does not hold is fatal in both modes,
      before the right-hand side is evaluated. */
  lemma AssignmentToUnknownIsFatal(l: Expr, r: Expr, x: string, st: State, collecting: bool, fuel: nat)
    requires Name(l) == Ok(x) && x !in st.frame.vars
    ensures Interp(BinaryExpr(OpAssign, l, r), st, collecting, fuel) == Fail(Fatal(UnknownVariable(x)))
    ensures r != Absent ==>
              Value(BinaryExpr(OpAssign, l, r), st, collecting, fuel) == Fail(Fatal(UnknownVariable(x)))
  {
  }

  /** The value of an assignment is the value it stored, and running it for
      effect reaches the same state. */
  lemma AssignmentValueIsStored(x: string, r: Expr, st: State, collecting: bool, fuel: nat)
    requires x in st.frame.vars && r != Absent
    ensures var res := Value(BinaryExpr(OpAssign, VariableExpr(x), r), st, collecting, fuel);
            && (res.Ok? ==> x in res.value.st.frame.vars && res.value.st.frame.vars[x] == res.value.v)
            && Interp(BinaryExpr(OpAssign, VariableExpr(x), r), st, collecting, fuel) ==
               (if res.Ok? then Ok(res.value.st) else Fail(res.error))
  {
  }

  /** `x := (y := 5)` sets both variables to 5. */
  lemma ChainedAssignment(x: string, y: string, st: State, collecting: bool, fuel: nat)
    requires x in st.frame.vars && y in st.frame.vars
    ensures var r := Interp(BinaryExpr(OpAssign, VariableExpr(x),
                                       BinaryExpr(OpAssign, VariableExpr(y), NumberExpr(5))),
                            st, collecting, fuel);
            && r.Ok?
            && r.value.frame.vars == st.frame.vars[y := 5][x := 5]
            && r.value.frame.vars[x] == 5 && r.value.frame.vars[y] == 5
  {
    var inner := BinaryExpr(OpAssign, VariableExpr(y), NumberExpr(5));
    assert Value(NumberExpr(5), st, collecting, fuel) == Ok(Valued(5, st));
    assert Value(inner, st, collecting, fuel) == Ok(Valued(5, SetVar(st, y, 5)));
    assert Interp(BinaryExpr(OpAssign, VariableExpr(x), inner), st, collecting, fuel) ==
           Ok(SetVar(SetVar(st, y, 5), x, 5));
  }

  /** Without parentheses `x := y := 5` groups as `(x := y) := 5`; the
      target `x := y` has no name, so running it is fatal. */
  lemma UnparenthesisedChainIsFatal(x: string, y: string, st: State, collecting: bool, fuel: nat)
    ensures Interp(BinaryExpr(OpAssign, BinaryExpr(OpAssign, VariableExpr(x), VariableExpr(y)), NumberExpr(5)),
                   st, collecting, fuel) == Fail(Fatal(NoBinaryName))
    ensures Value(BinaryExpr(OpAssign, BinaryExpr(OpAssign, VariableExpr(x), VariableExpr(y)), NumberExpr(5)),
                  st, collecting, fuel) == Fail(Fatal(NoBinaryName))
  {
  }

  // ---------------------------------------------------------------------
  // Input and output

  /** `read(x); write(x)` echoes the next input integer. */
  lemma EchoOneInteger(x: string, v: Int32, more: seq<Int32>, st: State, collecting: bool, fuel: nat)
    requires st.input == [v] + more
    ensures var r := Interp(BinaryExpr(OpSeq, ReadExpr(x), WriteExpr(x)), st, collecting, fuel);
            && r.Ok?
            && r.value.input == more
            && r.value.output == st.output + [v]
            && r.value.frame.vars == st.frame.vars[x := v]
  {
    assert st.input[1..] == more;
  }

  /** `write` of a name the frame lacks is fatal; `read` with nothing left
      to read is undefined. */
  lemma IoErrors(x: string, st: State, collecting: bool, fuel: nat)
    ensures x !in st.frame.vars ==>
              Interp(WriteExpr(x), st, collecting, fuel) == Fail(Fatal(UnknownVariable(x)))
    ensures st.input == [] ==>
              Interp(ReadExpr(x), st, collecting, fuel) == Fail(Undefined(InputExhausted))
  {
  }

  // ---------------------------------------------------------------------
  // Undefined behaviour the model reports

  /** A trailing `;` leaves a null second statement, which is dereferenced
      once the first statement has run. */
  lemma TrailingSemicolonIsUndefined(l: Expr, st: State, collecting: bool, fuel: nat)
    ensures var first := Interp(l, st, collecting, fuel);
            Interp(BinaryExpr(OpSeq, l, Absent), st, collecting, fuel) ==
            (if first.Ok? then Fail(Undefined(NullNode)) else first)
  {
  }

  /** An empty body `begin end` is a null body, dereferenced when the
      function runs. */
  lemma EmptyBodyIsUndefined(name: string, ps: seq<string>, st: State, collecting: bool, fuel: nat)
    requires |ps| == |st.frame.args|
    ensures Value(FunctionExpr(name, ps, Absent), st, collecting, fuel) == Fail(Undefined(NullNode))
  {
  }

  /** A call among another call's arguments would clobber the frame under
      construction; once its callee is found, that is undefined. */
  lemma NestedCallIsUndefined(f: string, g: string, gArgs: seq<Expr>, st: State, fuel: nat)
    requires f in st.frame.funcs && g in st.frame.funcs
    ensures Value(CallExpr(f, [CallExpr(g, gArgs)]), st, false, fuel) == Fail(Undefined(NestedCall))
    ensures Interp(CallExpr(f, [CallExpr(g, gArgs)]), st, false, fuel) == Fail(Undefined(NestedCall))
  {
    var args := [CallExpr(g, gArgs)];
    assert Invoke(g, gArgs, st, true, fuel, true) == Fail(Undefined(NestedCall));
    assert Value(args[0], st, true, fuel) == Fail(Undefined(NestedCall));
    assert EvalArgs(args, st, fuel) == Fail(Undefined(NestedCall));
    assert Invoke(f, args, st, false, fuel, true) == Fail(Undefined(NestedCall));
    assert Invoke(f, args, st, false, fuel, false) == Fail(Undefined(NestedCall));
  }

  // ---------------------------------------------------------------------
  // Calls

  /** A callee is looked up in the current frame's function table only; a
      miss is fatal in both modes, before any argument is evaluated. */
  lemma CallOfUnknownIsFatal(f: string, args: seq<Expr>, st: State, collecting: bool, fuel: nat)
    requires f !in st.frame.funcs
    ensures Value(CallExpr(f, args), st, collecting, fuel) == Fail(Fatal(UnknownFunction(f)))
    ensures Interp(CallExpr(f, args), st, collecting, fuel) == Fail(Fatal(UnknownFunction(f)))
  {
  }

  /** The frame a called function's body starts in: the argument values,
      the parameters bound to them (in value mode over the function's own
      name preset to 0), and a function table holding only the function
      itself, so it can call itself but nothing else the caller defined. */
  function CalleeFrame(callee: string, fn: Expr, vals: seq<Int32>, valueMode: bool): Frame
    requires fn.FunctionExpr? && |fn.params| == |vals|
  {
    Frame(vals, Bind(if valueMode then map[callee := 0] else map[], fn.params, vals),
          map[fn.name := fn])
  }

  /** A call of a defined function: the arguments are evaluated in the
      caller; the definition run is the one the name has after them; a count
      mismatch with its parameters is fatal; otherwise the body runs in
      `CalleeFrame`, the caller's frame afterwards is the one its arguments
      left, and in value mode the result is the callee frame's variable
      named after the function. */
  lemma CallRunsBodyInFreshFrame(f: string, args: seq<Expr>, st: State, fuel: nat, valueMode: bool)
    requires f in st.frame.funcs && fuel > 0 && EvalArgs(args, st, fuel).Ok?
    requires EvalArgs(args, st, fuel).value.st.frame.funcs[f].FunctionExpr?
    ensures var c := EvalArgs(args, st, fuel).value;
            var fn := c.st.frame.funcs[f];
            var res := Invoke(f, args, st, false, fuel, valueMode);
            if |fn.params| != |args| then res == Fail(Fatal(ArityMismatch(fn.name)))
            else
              ReturnsFrom(f, valueMode,
                          Interp(fn.body, State(CalleeFrame(f, fn, c.vals, valueMode), c.st.input, c.st.output),
                                 false, fuel - 1),
                          c.st.frame, res)
  {
    var c := EvalArgs(args, st, fuel).value;
    var fn := c.st.frame.funcs[f];
    var entry := State(Frame(c.vals, if valueMode then map[f := 0] else map[], map[]), c.st.input, c.st.output);
    var registered := entry.(frame := entry.frame.(funcs := map[fn.name := fn]));
    assert entry.frame.funcs[fn.name := fn] == map[fn.name := fn];
    if |fn.params| == |args| {
      var bound := registered.(frame := registered.frame.(vars := Bind(registered.frame.vars, fn.params, c.vals)));
      assert bound == State(CalleeFrame(f, fn, c.vals, valueMode), c.st.input, c.st.output);
    }
  }

  /** An argument that defines the callee's name replaces the definition
      the call runs: with `f` taking one parameter, `f(integer function f();
      begin x end)` runs the new parameterless `f` on one argument, a count
      mismatch, in both modes. */
  lemma ArgumentRedefinesCallee(f: string, p: string, body: Expr, x: string, st: State, fuel: nat)
    requires fuel > 0 && st.frame.args == [] && f in st.frame.funcs
    requires st.frame.funcs[f] == FunctionExpr(f, [p], body)
    ensures var def := FunctionExpr(f, [], VariableExpr(x));
            && Value(CallExpr(f, [def]), st, false, fuel) == Fail(Fatal(ArityMismatch(f)))
            && Interp(CallExpr(f, [def]), st, false, fuel) == Fail(Fatal(ArityMismatch(f)))
  {
    var def := FunctionExpr(f, [], VariableExpr(x));
    DefinitionArgument(def, x, st, fuel);
    CallRunsBodyInFreshFrame(f, [def], st, fuel, true);
    CallRunsBodyInFreshFrame(f, [def], st, fuel, false);
  }

  /** A definition passed as an argument registers itself in the caller's
      frame and contributes the value 0. */
  lemma DefinitionArgument(def: Expr, x: string, st: State, fuel: nat)
    requires def.FunctionExpr? && def.params == [] && def.body == VariableExpr(x) && st.frame.args == []
    ensures var c := EvalArgs([def], st, fuel);
            c.Ok? && c.value.vals == [0] && def.name in c.value.st.frame.funcs &&
            c.value.st.frame.funcs[def.name] == def
  {
    var st1 := st.(frame := st.frame.(funcs := st.frame.funcs[def.name := def]));
    var st2 := st1.(frame := st1.frame.(vars := Bind(st1.frame.vars, [], [])));
    assert Interp(VariableExpr(x), st2, true, fuel) == Ok(Declare(st2, x));
    assert Value(def, st, true, fuel) == Ok(Valued(0, Declare(st2, x)));
    assert [def][0] == def && [def][1..] == [];
    assert EvalArgs([def][1..], Declare(st2, x), fuel) == Ok(Collected([], Declare(st2, x)));
    var c := EvalArgs([def], st, fuel);
    assert c.Ok? && c.value.st == Declare(st2, x);
    assert c.value.vals == [0];
  }

  /** Only a call in value mode presets the function's name: called as a
      statement, a body that returns through that name is fatal, while the
      same call as an expression yields the assigned value. */
  lemma StatementCallCannotAssignOwnName(f: string, st: State, fuel: nat)
    requires fuel > 0 && f in st.frame.funcs
    requires st.frame.funcs[f] == FunctionExpr(f, [], BinaryExpr(OpAssign, VariableExpr(f), NumberExpr(1)))
    ensures Interp(CallExpr(f, []), st, false, fuel) == Fail(Fatal(UnknownVariable(f)))
    ensures Value(CallExpr(f, []), st, false, fuel) == Ok(Valued(1, st))
  {
    var fn := st.frame.funcs[f];
    assert EvalArgs([], st, fuel) == Ok(Collected([], st));
    var plain := State(Frame([], map[], map[f := fn]), st.input, st.output);
    var preset := State(Frame([], map[f := 0], map[f := fn]), st.input, st.output);
    assert Bind(map[], [], []) == map[] && Bind(map[f := 0], [], []) == map[f := 0];
    assert map[][f := fn] == map[f := fn];
    assert Interp(fn.body, plain, false, fuel - 1) == Fail(Fatal(UnknownVariable(f)));
    assert Value(fn, State(Frame([], map[], map[]), st.input, st.output), false, fuel - 1) ==
           Fail(Fatal(UnknownVariable(f)));
    var done := SetVar(preset, f, 1);
    assert Interp(fn.body, preset, false, fuel - 1) == Ok(done);
    assert Value(fn, State(Frame([], map[f := 0], map[]), st.input, st.output), false, fuel - 1) ==
           Ok(Valued(0, done));
    assert done.frame.vars[f] == 1;
  }

  /** `r` is what a call makes of its body's run `b`: the body's error, or
      in value mode the callee frame's variable named after the function
      (0 when there is none), with the caller's frame back in place. */
  predicate ReturnsFrom(f: string, valueMode: bool, b: Result<State>, caller: Frame, r: Result<Valued>) {
    && (b.Fail? ==> r == Fail(b.error))
    && (b.Ok? ==>
          r == Ok(Valued(if valueMode && f in b.value.frame.vars then b.value.frame.vars[f] else 0,
                         State(caller, b.value.input, b.value.output))))
  }

  /** Binding parameters never disturbs a name that is not a parameter. */
  lemma BindKeepsOthers(vars: map<string, Int32>, ps: seq<string>, vals: seq<Int32>, x: string)
    requires |ps| == |vals| && x !in ps
    ensures x in Bind(vars, ps, vals) <==> x in vars
    ensures x in vars ==> Bind(vars, ps, vals)[x] == vars[x]
  {
  }

  /** `x` has the same standing in both states: declared in both with the
      same value, or in neither. */
  predicate Keeps(st: State, st': State, x: string) {
    && (x in st.frame.vars <==> x in st'.frame.vars)
    && (x in st.frame.vars ==> st'.frame.vars[x] == st.frame.vars[x])
  }

  lemma {:induction false} InterpKeeps(e: Expr, st: State, collecting: bool, fuel: nat, x: string)
    requires x != "" && !Occurs(e, x)
    ensures var r := Interp(e, st, collecting, fuel); r.Ok? ==> Keeps(st, r.value, x)
    decreases fuel, Size(e), 1
  {
    match e
    case Absent =>
    case NumberExpr(_) =>
    case VariableExpr(_) =>
    case BinaryExpr(op, l, r) =>
      InterpBinaryKeeps(op, l, r, st, collecting, fuel, x);
    case ConditionExpr(c, t, f) =>
      InterpConditionKeeps(c, t, f, st, collecting, fuel, x);
    case CallExpr(callee, args) =>
      InvokeKeeps(callee, args, st, collecting, fuel, false, x);
      var r := Invoke(callee, args, st, collecting, fuel, false);
      assert Interp(e, st, collecting, fuel) == if r.Ok? then Ok(r.value.st) else Fail(r.error);
    case FunctionExpr(_, _, _) =>
    case ReadExpr(_) =>
    case WriteExpr(_) =>
  }

  lemma {:induction false} InterpBinaryKeeps(op: BinOp, l: Expr, r: Expr, st: State, collecting: bool,
                                             fuel: nat, x: string)
    requires x != "" && !Occurs(l, x) && !Occurs(r, x)
    ensures var res := Interp(BinaryExpr(op, l, r), st, collecting, fuel);
            res.Ok? ==> Keeps(st, res.value, x)
    decreases fuel, Size(BinaryExpr(op, l, r)), 0
  {
    var res := Interp(BinaryExpr(op, l, r), st, collecting, fuel);
    if res.Ok? {
      if op == OpSeq {
        var st1 := SequenceParts(l, r, st, collecting, fuel);
        InterpKeeps(l, st, collecting, fuel, x);
        InterpKeeps(r, st1, collecting, fuel, x);
      } else if op == OpAssign {
        var name, rv := AssignmentStmtParts(l, r, st, collecting, fuel);
        ValueKeeps(r, st, collecting, fuel, x);
      }
    }
  }

  /** A successful `s1; s2`: `s2` runs in the state `s1` left. */
  lemma SequenceParts(l: Expr, r: Expr, st: State, collecting: bool, fuel: nat) returns (st1: State)
    requires Interp(BinaryExpr(OpSeq, l, r), st, collecting, fuel).Ok?
    ensures Interp(l, st, collecting, fuel) == Ok(st1)
    ensures Interp(BinaryExpr(OpSeq, l, r), st, collecting, fuel) == Interp(r, st1, collecting, fuel)
  {
    st1 := Interp(l, st, collecting, fuel).value;
  }

  /** A successful assignment run for effect: the value of the right side
      is stored under the target's name. */
  lemma AssignmentStmtParts(l: Expr, r: Expr, st: State, collecting: bool, fuel: nat) returns (name: string, rv: Valued)
    requires Interp(BinaryExpr(OpAssign, l, r), st, collecting, fuel).Ok?
    ensures Name(l) == Ok(name) && name in st.frame.vars && Value(r, st, collecting, fuel) == Ok(rv)
    ensures Interp(BinaryExpr(OpAssign, l, r), st, collecting, fuel) == Ok(SetVar(rv.st, name, rv.v))
  {
    name := Name(l).value;
    rv := Value(r, st, collecting, fuel).value;
  }

  lemma {:induction false} InterpConditionKeeps(c: Expr, t: Expr, f: Expr, st: State, collecting: bool,
                                                fuel: nat, x: string)
    requires x != "" && !Occurs(c, x) && !Occurs(t, x) && !Occurs(f, x)
    ensures var res := Interp(ConditionExpr(c, t, f), st, collecting, fuel);
            res.Ok? ==> Keeps(st, res.value, x)
    decreases fuel, Size(ConditionExpr(c, t, f)), 0
  {
    var cv := Value(c, st, collecting, fuel);
    if cv.Ok? {
      ValueKeeps(c, st, collecting, fuel, x);
      var st1 := cv.value.st;
      var branch := if cv.value.v != 0 then t else f;
      InterpKeeps(branch, st1, collecting, fuel, x);
      ConditionRunsBranch(c, t, f, st, collecting, fuel, cv.value);
      KeepsTrans(st, st1, Interp(branch, st1, collecting, fuel), x);
    }
  }

  /** A conditional whose condition has a value runs the chosen branch. */
  lemma ConditionRunsBranch(c: Expr, t: Expr, f: Expr, st: State, collecting: bool, fuel: nat, cv: Valued)
    requires Value(c, st, collecting, fuel) == Ok(cv)
    ensures Interp(ConditionExpr(c, t, f), st, collecting, fuel) ==
            Interp(if cv.v != 0 then t else f, cv.st, collecting, fuel)
  {
  }

  lemma KeepsTrans(st: State, st1: State, r: Result<State>, x: string)
    requires Keeps(st, st1, x) && (r.Ok? ==> Keeps(st1, r.value, x))
    ensures r.Ok? ==> Keeps(st, r.value, x)
  {
  }

  lemma {:induction false} ValueKeeps(e: Expr, st: State, collecting: bool, fuel: nat, x: string)
    requires x != "" && !Occurs(e, x)
    ensures var r := Value(e, st, collecting, fuel); r.Ok? ==> Keeps(st, r.value.st, x)
    decreases fuel, Size(e), 1
  {
    match e
    case Absent =>
    case NumberExpr(_) =>
    case VariableExpr(_) =>
    case BinaryExpr(op, l, r) =>
      ValueBinaryKeeps(op, l, r, st, collecting, fuel, x);
    case ConditionExpr(_, _, _) =>
    case CallExpr(callee, args) =>
      InvokeKeeps(callee, args, st, collecting, fuel, true, x);
    case FunctionExpr(name, ps, body) =>
      ValueFunctionKeeps(name, ps, body, st, collecting, fuel, x);
    case ReadExpr(_) =>
    case WriteExpr(_) =>
  }

  lemma {:induction false} ValueBinaryKeeps(op: BinOp, l: Expr, r: Expr, st: State, collecting: bool,
                                            fuel: nat, x: string)
    requires x != "" && !Occurs(l, x) && !Occurs(r, x)
    ensures var res := Value(BinaryExpr(op, l, r), st, collecting, fuel);
            res.Ok? ==> Keeps(st, res.value.st, x)
    decreases fuel, Size(BinaryExpr(op, l, r)), 0
  {
    var res := Value(BinaryExpr(op, l, r), st, collecting, fuel);
    if res.Ok? {
      if r == Absent {
        ValueKeeps(l, st, collecting, fuel, x);
      } else if op == OpAssign {
        var name, rv := AssignmentParts(l, r, st, collecting, fuel);
        ValueKeeps(r, st, collecting, fuel, x);
      } else {
        var a, b := OperatorParts(op, l, r, st, collecting, fuel);
        ValueKeeps(l, st, collecting, fuel, x);
        ValueKeeps(r, a.st, collecting, fuel, x);
      }
    }
  }

  /** A successful `value()` of an assignment: the target's name, and the
      value of the right side stored under it. */
  lemma AssignmentParts(l: Expr, r: Expr, st: State, collecting: bool, fuel: nat) returns (name: string, rv: Valued)
    requires r != Absent && Value(BinaryExpr(OpAssign, l, r), st, collecting, fuel).Ok?
    ensures Name(l) == Ok(name) && name in st.frame.vars && Value(r, st, collecting, fuel) == Ok(rv)
    ensures Value(BinaryExpr(OpAssign, l, r), st, collecting, fuel) == Ok(Valued(rv.v, SetVar(rv.st, name, rv.v)))
  {
    name := Name(l).value;
    rv := Value(r, st, collecting, fuel).value;
  }

  /** A successful `value()` of an operator: both operands' values, the
      right one evaluated after the left. */
  lemma OperatorParts(op: BinOp, l: Expr, r: Expr, st: State, collecting: bool, fuel: nat) returns (a: Valued, b: Valued)
    requires r != Absent && op != OpAssign && Value(BinaryExpr(op, l, r), st, collecting, fuel).Ok?
    ensures op != OpSeq && Value(l, st, collecting, fuel) == Ok(a) && Value(r, a.st, collecting, fuel) == Ok(b)
    ensures Value(BinaryExpr(op, l, r), st, collecting, fuel).value.st == b.st
  {
    if op == OpSeq {
      SequenceHasNoValue(l, r, st, collecting, fuel);
      assert false;
    }
    OperatorValue(op, l, r, st, collecting, fuel);
    a := Value(l, st, collecting, fuel).value;
    b := Value(r, a.st, collecting, fuel).value;
  }

  /** A sequencing node reaches the `default` of `value()`'s switch. */
  lemma SequenceHasNoValue(l: Expr, r: Expr, st: State, collecting: bool, fuel: nat)
    requires r != Absent
    ensures Value(BinaryExpr(OpSeq, l, r), st, collecting, fuel) == Fail(Fatal(BadOperator))
  {
  }

  lemma {:induction false} ValueFunctionKeeps(name: string, ps: seq<string>, body: Expr, st: State,
                                              collecting: bool, fuel: nat, x: string)
    requires x != "" && x !in ps && !Occurs(body, x)
    ensures var res := Value(FunctionExpr(name, ps, body), st, collecting, fuel);
            res.Ok? ==> Keeps(st, res.value.st, x)
    decreases fuel, Size(FunctionExpr(name, ps, body)), 0
  {
    var st1 := st.(frame := st.frame.(funcs := st.frame.funcs[name := FunctionExpr(name, ps, body)]));
    if |ps| == |st1.frame.args| {
      BindKeepsOthers(st1.frame.vars, ps, st1.frame.args, x);
      var st2 := st1.(frame := st1.frame.(vars := Bind(st1.frame.vars, ps, st1.frame.args)));
      InterpKeeps(body, st2, collecting, fuel, x);
    }
  }

  lemma {:induction false} ArgsKeep(args: seq<Expr>, st: State, fuel: nat, x: string)
    requires x != "" && forall i | 0 <= i < |args| :: !Occurs(args[i], x)
    ensures var r := EvalArgs(args, st, fuel); r.Ok? ==> Keeps(st, r.value.st, x)
    decreases fuel, SizeList(args), 2
  {
    if args != [] {
      ValueKeeps(args[0], st, true, fuel, x);
      var a := Value(args[0], st, true, fuel);
      if a.Ok? {
        assert forall i | 0 <= i < |args[1..]| :: args[1..][i] == args[i + 1];
        ArgsKeep(args[1..], a.value.st, fuel, x);
      }
    }
  }

  lemma {:induction false} InvokeKeeps(callee: string, args: seq<Expr>, st: State, collecting: bool,
                                       fuel: nat, valueMode: bool, x: string)
    requires x != "" && forall i | 0 <= i < |args| :: !Occurs(args[i], x)
    ensures var r := Invoke(callee, args, st, collecting, fuel, valueMode);
            r.Ok? ==> Keeps(st, r.value.st, x)
    decreases fuel, SizeList(args), 3
  {
    if callee in st.frame.funcs && !collecting {
      ArgsKeep(args, st, fuel, x);
    }
  }

  /** Frame isolation: whatever the body does, a call whose arguments
      never mention `x` leaves the caller's `x` as it was. */
  lemma CallKeepsCallerVariable(f: string, args: seq<Expr>, st: State, fuel: nat, valueMode: bool, x: string)
    requires x != "" && forall i | 0 <= i < |args| :: !Occurs(args[i], x)
    ensures var r := Invoke(f, args, st, false, fuel, valueMode);
            r.Ok? ==> Keeps(st, r.value.st, x)
  {
    InvokeKeeps(f, args, st, false, fuel, valueMode, x);
  }

  /** With literal arguments a call leaves the caller's frame exactly as it
      was: the body's writes land in the callee's frame only. */
  lemma LiteralCallKeepsCallerFrame(f: string, ns: seq<Int32>, st: State, fuel: nat, valueMode: bool)
    ensures var args := seq(|ns|, i requires 0 <= i < |ns| => NumberExpr(ns[i]));
            var r := Invoke(f, args, st, false, fuel, valueMode);
            r.Ok? ==> r.value.st.frame == st.frame
  {
    var args := seq(|ns|, i requires 0 <= i < |ns| => NumberExpr(ns[i]));
    LiteralArgs(ns, st, fuel);
  }

  lemma {:induction false} LiteralArgs(ns: seq<Int32>, st: State, fuel: nat)
    ensures var args := seq(|ns|, i requires 0 <= i < |ns| => NumberExpr(ns[i]));
            EvalArgs(args, st, fuel) == Ok(Collected(ns, st))
    decreases |ns|
  {
    var args := seq(|ns|, i requires 0 <= i < |ns| => NumberExpr(ns[i]));
    if ns != [] {
      LiteralArgs(ns[1..], st, fuel);
      assert args[1..] == seq(|ns[1..]|, i requires 0 <= i < |ns[1..]| => NumberExpr(ns[1..][i]));
      assert [ns[0]] + ns[1..] == ns;
    }
  }

  /** A call that succeeds had fuel left and arguments that evaluated. */
  lemma InvokeOkNeedsArgs(f: string, args: seq<Expr>, st: State, fuel: nat, valueMode: bool)
    requires Invoke(f, args, st, false, fuel, valueMode).Ok?
    ensures f in st.frame.funcs && fuel > 0 && EvalArgs(args, st, fuel).Ok?
  {
  }

  /** A value-mode call returns 0 unless the function assigns, reads or
      binds its own name: the name is preset to 0 in the callee frame. */
  lemma DefaultReturnIsZero(f: string, args: seq<Expr>, st: State, fuel: nat)
    requires f != "" && f in st.frame.funcs && EvalArgs(args, st, fuel).Ok?
    requires var fn := EvalArgs(args, st, fuel).value.st.frame.funcs[f];
             fn.FunctionExpr? && f !in fn.params && !Occurs(fn.body, f)
    ensures var r := Invoke(f, args, st, false, fuel, true); r.Ok? ==> r.value.v == 0
  {
    var r := Invoke(f, args, st, false, fuel, true);
    if r.Ok? {
      InvokeOkNeedsArgs(f, args, st, fuel, true);
      CallRunsBodyInFreshFrame(f, args, st, fuel, true);
      var fn := EvalArgs(args, st, fuel).value.st.frame.funcs[f];
      if |fn.params| == |args| {
        CalleeReturn(f, fn, EvalArgs(args, st, fuel).value, fuel, r);
      }
    }
  }

  /** The call step of `DefaultReturnIsZero`, with the call unfolded. */
  lemma CalleeReturn(f: string, fn: Expr, c: Collected, fuel: nat, r: Result<Valued>)
    requires f != "" && fn.FunctionExpr? && |fn.params| == |c.vals| && fuel > 0
    requires f !in fn.params && !Occurs(fn.body, f)
    requires ReturnsFrom(f, true, Interp(fn.body, State(CalleeFrame(f, fn, c.vals, true), c.st.input, c.st.output),
                                         false, fuel - 1),
                         c.st.frame, r)
    ensures r.Ok? ==> r.value.v == 0
  {
    var start := State(CalleeFrame(f, fn, c.vals, true), c.st.input, c.st.output);
    var b := Interp(fn.body, start, false, fuel - 1);
    assert ReturnsFrom(f, true, b, c.st.frame, r);
    CalleePreset(f, fn, c.vals);
    DefaultReturnOfBody(f, fn.body, start, fuel - 1, c.st.frame, b, r);
  }

  /** The body step of `DefaultReturnIsZero`: the body runs from a frame
      where `f` is 0, and `r` is the call's result built from that run. */
  lemma DefaultReturnOfBody(f: string, body: Expr, start: State, fuel: nat, caller: Frame,
                            b: Result<State>, r: Result<Valued>)
    requires f != "" && !Occurs(body, f)
    requires f in start.frame.vars && start.frame.vars[f] == 0
    requires b == Interp(body, start, false, fuel) && ReturnsFrom(f, true, b, caller, r)
    ensures r.Ok? ==> r.value.v == 0
  {
    InterpKeeps(body, start, false, fuel, f);
  }

  /** In value mode the callee frame starts with the function's name at 0
      unless a parameter has that name. */
  lemma CalleePreset(f: string, fn: Expr, vals: seq<Int32>)
    requires fn.FunctionExpr? && |fn.params| == |vals| && f !in fn.params
    ensures var vars := CalleeFrame(f, fn, vals, true).vars; f in vars && vars[f] == 0
  {
    BindKeepsOthers(map[f := 0], fn.params, vals, f);
  }

  // ---------------------------------------------------------------------
  // Statement lists

  /** The right-nested `;` chain the parser builds for `s1; ...; sn`. */
  function Chain(stmts: seq<Expr>): Expr
    requires |stmts| > 0
  {
    if |stmts| == 1 then stmts[0] else BinaryExpr(OpSeq, stmts[0], Chain(stmts[1..]))
  }

  /** Running statements one after another, stopping at the first error. */
  function RunAll(stmts: seq<Expr>, st: State, collecting: bool, fuel: nat): Result<State>
  {
    if stmts == [] then Ok(st)
    else
      var st1 :- Interp(stmts[0], st, collecting, fuel);
      RunAll(stmts[1..], st1, collecting, fuel)
  }

  /** A statement list runs its statements left to right. */
  lemma {:induction false} ChainRunsLeftToRight(stmts: seq<Expr>, st: State, collecting: bool, fuel: nat)
    requires |stmts| > 0
    ensures Interp(Chain(stmts), st, collecting, fuel) == RunAll(stmts, st, collecting, fuel)
    decreases |stmts|
  {
    if |stmts| == 1 {
      assert RunAll(stmts[1..], st, collecting, fuel) == RunAll([], st, collecting, fuel);
      var r := Interp(stmts[0], st, collecting, fuel);
      if r.Ok? {
        assert RunAll(stmts[1..], r.value, collecting, fuel) == Ok(r.value);
      }
    } else {
      var r := Interp(stmts[0], st, collecting, fuel);
      if r.Ok? {
        ChainRunsLeftToRight(stmts[1..], r.value, collecting, fuel);
      }
    }
  }
}
