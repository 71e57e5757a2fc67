/** Shared vocabulary of the interpreter model: the host `int` type, the ways
    an evaluation can stop, and a failure-compatible result type. */
module Base {

  /** The interpreter computes on the host's 32-bit `int`. */
  const INT_MIN: int := -0x8000_0000
  const INT_MAX: int := 0x7fff_ffff

  type Int32 = x: int | INT_MIN <= x <= INT_MAX

  predicate InInt32(x: int) {
    INT_MIN <= x <= INT_MAX
  }

  /** What the source reports through `Error()` before it calls `terminate()`. */
  datatype FatalKind =
    | BadColon                      // ':' not followed by '='
    | BadChar(c: char)              // a character no token starts with
    | NumberTooLarge                // `stoi` throws on a digit run above INT_MAX
    | UnknownVariable(name: string) // assignment or write to a name the frame lacks
    | UnknownFunction(name: string) // call of a name the frame's function table lacks
    | ArityMismatch(name: string)   // parameter and argument counts differ
    | NoBinaryName                  // name() asked of a binary node with a right operand
    | BadOperator                   // value() of a sequencing node

  /** Situations in which the C++ program has undefined behaviour; the model
      stops with an explicit error instead of inventing a meaning. */
  datatype UndefinedKind =
    | NullNode        // a null AST child is interpreted or evaluated
    | Overflow        // signed overflow in + - *
    | NestedCall      // a call evaluated while the same frame collects call arguments
    | InputExhausted  // `cin >> i` with no integer left to read

  datatype Error =
    | Fatal(fatal: FatalKind)
    | Undefined(undefined: UndefinedKind)
    | OutOfFuel

  datatype Result<+T> = Ok(value: T) | Fail(error: Error) {
    predicate IsFailure() {
      Fail?
    }

    function PropagateFailure<U>(): Result<U>
      requires Fail?
    {
      Fail(error)
    }

    function Extract(): T
      requires Ok?
    {
      value
    }
  }
}
