/**
 * The exceptions the command layer raises itself or lets through from the
 * Python runtime and from the parser and checker (prover/parser.py,
 * prover/checker.py), which are not modelled.
 */
module Errors {
  import opened Wrappers

  datatype Error =
    | SyntaxError        // raised by the command layer for a malformed form
    | IndexError         // `pop` on an empty list
    | ValueError         // unpacking a list of the wrong length
    | TypeError          // unpacking a value that is not a list
    | AssertionError     // a failed `assert` (the precedence of `infix`)
    | VerificationError  // raised by `infer` or `check` when a proof is rejected
    | RecursionError     // the interpreter's recursion limit (macro expansion)
    | ForeignError       // any other exception of the parser or checker

  /** A computation that returns a value or raises. */
  type Fallible<T> = Result<T, Error>
}
