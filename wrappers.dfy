/** Optional values, and the results of operations that can throw a JavaScript exception. */
module Wrappers {

  /** A value that may be absent: `null` or `undefined` in the source. */
  datatype Option<+T> = None | Some(value: T)

  /** The exceptions the modelled code can throw, one constructor per throw site. */
  datatype JsError =
    | NullListName                 // TypeError: `action.list.name` read while `list` is null or undefined
    | InvalidRegex(source: string) // SyntaxError: `String.prototype.match` cannot compile `source`
    | SelfReferencingInitializer   // `initialized` read inside its own initializer
    | UndefinedStageDates          // TypeError: `forEach` called on a work item without stage dates

  /** The outcome of an operation that either returns a value or throws. */
  datatype Result<+T> = Ok(value: T) | Err(error: JsError) {

    predicate IsFailure() {
      Err?
    }

    function PropagateFailure<U>(): Result<U>
      requires Err?
    {
      Err(error)
    }

    function Extract(): T
      requires Ok?
    {
      value
    }
  }
}
