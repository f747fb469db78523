/** Failure-carrying results shared by every module of the model. */
module Wrappers {

  /** A JavaScript value that may be `undefined`. */
  datatype Option<+T> = None | Some(value: T)

  /** The reasons a decoding step throws in the modelled code. */
  datatype Error =
    | OutOfRange        // a Buffer read (readUInt32BE, TypedArray.set) beyond the buffer
    | NoMatch           // destructuring the `null` returned by a failed regular-expression match
    | UnknownType       // no parser registered for an object type name
    | Undefined         // a property read on `undefined`
    | DepthExhausted    // the recursion bound of the model ran out
    | MissingFile       // opening or reading a file that is not there

  /** Either a value or the error that the modelled code throws. */
  datatype Result<+T> = Ok(value: T) | Err(error: Error)
}
