/** Option and Result types shared by the whole model.  The C++ library
    signals programming-contract violations by throwing InternalErr and
    malformed constraints by throwing Error(malformed_expr); both become the
    failure half of a Result here. */
module Wrappers {

  datatype Option<+T> = None | Some(value: T)

  /** The two kinds of exceptions the modelled code throws. */
  datatype Error =
    | InternalErr(msg: string)
    | MalformedExpr(msg: string)

  datatype Result<+T> = Ok(value: T) | Err(error: Error) {
    predicate IsFailure() { Err? }

    function PropagateFailure<U>(): Result<U>
      requires Err?
    {
      Err(error)
    }

    function Extract(): T
      requires Ok?
    {
      value
    }
  }
}
