/** Result and error values shared by the document generator's components.
    The Python code signals failure by raising; each raise the model keeps
    becomes an `Err` carrying the kind of exception. */
module Wrappers {

  /** The exceptions the modelled code can raise. */
  datatype Error =
    | DivisionByZero              // ZeroDivisionError from a float division or `0.0 ** -n`
    | MissingField(key: string)   // KeyError from `data[key]` on the request dictionary

  datatype Result<T> = Ok(value: T) | Err(error: Error) {
    predicate IsFailure() { Err? }

    function PropagateFailure<U>(): Result<U>
      requires Err?
    {
      Err(error)
    }

    function Extract(): T
      requires Ok?
    {
      value
    }
  }

  datatype Option<T> = None | Some(value: T)
}
