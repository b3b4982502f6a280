/** The exceptions the calculator and its containers throw, and the result type that
    replaces throwing them. Every operation that can throw returns a `Result`; `:-`
    propagates a thrown exception exactly as Java's stack unwinding does. */
module Exceptions {

  /** Why an `EvaluationError` was raised. */
  datatype Reason =
    | NameOfNumber          // getName() called on a number node
    | ValueOfNonNumber      // getNumericValue() called on a variable or operation node
    | NodeMismatch          // assertOperatorValid rejected the node
    | UndefinedVariable     // toDouble met a variable with no binding
    | UnknownOperation      // toDouble met an operation name it does not evaluate
    | AssignTargetNotVariable  // the left-hand side of assign is not a variable node

  datatype Exception =
    | EvaluationError(reason: Reason)
    | QuitError                 // the session-ending signal raised by quit() and exit()
    | IndexOutOfBounds
    | EmptyContainer
    | NoSuchElement
    | NoSuchKey
    | UnsupportedOperation
    | NullPointer
    | Diverges                  // a chain of variable bindings longer than the fuel: stands
                                // for the source's unbounded recursion through bindings

  datatype Result<+T> = Ok(value: T) | Throw(exception: Exception) {
    predicate IsFailure() {
      Throw?
    }

    function PropagateFailure<U>(): Result<U>
      requires Throw?
    {
      Throw(exception)
    }

    function Extract(): T
      requires Ok?
    {
      value
    }
  }

  /** The element at index `i`, as `IList.get` gives it: an out-of-range index throws. */
  function Get<T>(s: seq<T>, i: int): (r: Result<T>)
    ensures r.Ok? <==> 0 <= i < |s|
    ensures r.Ok? ==> r.value == s[i]
    ensures r.Throw? ==> r.exception == IndexOutOfBounds
  {
    if 0 <= i < |s| then Ok(s[i]) else Throw(IndexOutOfBounds)
  }
}
