/** Failure-compatible results for the scripts' operations.
    The scripts never raise errors of their own: every failure is a Python
    exception thrown by the interpreter or by pandas. `Fault` names the
    exception kind and what triggered it, so contracts can say which input
    makes an operation fail and how. */
module Outcomes {

  /** The Python exception kinds the modelled code can raise. */
  datatype Fault =
    | IndexError(what: string)      // list index out of range
    | NameError(name: string)       // a variable that was never assigned
    | KeyError(key: string)         // a column label missing from a frame
    | ValueError(what: string)      // int() of a malformed string, list.remove of a missing item
    | AttributeError(what: string)  // a method called on the wrong type

  /** A variable that may never have been assigned. */
  datatype Option<+T> = None | Some(value: T)

  datatype Result<+T> = Ok(value: T) | Err(error: Fault) {

    predicate IsFailure() {
      Err?
    }

    function PropagateFailure<U>(): Result<U>
      requires Err?
    {
      Err(error)
    }

    function Extract(): T
      requires Ok?
    {
      value
    }
  }
}
