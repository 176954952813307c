/** How the modelled operations report a missing result or a raised exception. */
module Outcomes {

  /** The exceptions the modelled code raises. */
  datatype Error =
    | ValueError       // missing key, duplicate key, empty collection
    | AttributeError   // write to a read-only property, or a field read on a missing child
    | AssertionError   // a failed `assert` statement in the source

  datatype Result<+T> = Ok(value: T) | Err(error: Error)

  /** A node reference that may be empty (`None` or the sentinel in the source). */
  datatype Option<+T> = None | Some(value: T)
}
