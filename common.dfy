/** Option and Result, and the Python exceptions that the menu code lets escape. */
module Common {

  datatype Option<+T> = None | Some(value: T) {
    function GetOr(default: T): T {
      match this
      case Some(v) => v
      case None => default
    }
  }

  /** A computation that either yields a value or raises one of the errors below.
      It supports `:-`, which stands for Python's exception propagation. */
  datatype Result<+T, +E> = Ok(value: T) | Err(error: E) {
    predicate IsFailure() {
      Err?
    }

    function PropagateFailure<U>(): Result<U, E>
      requires Err?
    {
      Err(error)
    }

    function Extract(): T
      requires Ok?
    {
      value
    }
  }

  /** The exceptions that escape the menu-building functions. */
  datatype Error =
    | KeyError(key: string)         // a dictionary lookup of a missing key
    | NoReverseMatch(name: string)  // the URL resolver has no pattern for a name
    | UnpackError                   // a dotted model name with three parts unpacked into two names
    | MissingLabel                  // a custom menu app with neither `app_label` nor `label`
    | AttributeError                // `append` on the values view left by "__all__"
}
