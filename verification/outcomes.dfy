/** Result shapes shared by the validators: a value, or the error detail a
    validator raises. */
module Outcomes {

  datatype Option<T> = None | Some(value: T)

  /** The detail of a validation error: keyed by the offending field, or a
      non-field error reported under the framework's generic key. */
  datatype Failure =
    | FieldError(field: string, message: string)
    | NonFieldError(message: string)

  /** What a validator returns: the validated value, or the error it raises. */
  datatype Result<T> = Ok(value: T) | Err(failure: Failure)

  /** The exceptions the modelled code can raise or catch. */
  datatype PyException =
    | TypeError
    | ValueError
    | ValidationError(detail: Failure)
}
