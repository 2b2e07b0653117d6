/** Value wrappers shared by the wheel widget and the step form: optional
    values (JavaScript's `undefined`) and the exceptions a call can throw. */
module Results {

  /** A value that may be `undefined`. */
  datatype Option<+T> = None | Some(value: T)

  /** The exceptions the modelled code throws. */
  datatype Thrown =
    | MountError(message: string)  // `new Error("no mount element provided")`
    | TypeError                    // a property read on `undefined`, or `in` on a primitive

  /** A call that either returns a value or throws. */
  datatype Result<+T> = Ok(value: T) | Err(error: Thrown)

  /** A call that returns nothing, or throws. */
  datatype Outcome = Pass | Fail(error: Thrown)
}
