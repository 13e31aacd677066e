/**
 The JavaScript values the loader's helpers traffic in: `undefined`/`null`
 as `None`, thrown errors as `Failure`.
 */
module Js {

  /** A value that may be absent (`null` or `undefined` in the source). */
  datatype Option<+T> = None | Some(value: T)

  /** The outcome of a call that either returns or throws. */
  datatype Result<+T> = Success(value: T) | Failure(error: JsError)

  /**
   The errors the modelled code can throw or pass along.
   `RangeError` is what constructing a `Uint8Array` view over a region outside
   its buffer throws; `TypeError` is what reading a property of `null` throws;
   `Thrown` stands for any error raised by code this model does not see
   (the network, the WebAssembly engine, the guest module).
   */
  datatype JsError =
    | RangeError(offset: int, length: int, bufferLength: int)
    | TypeError(reason: string)
    | Thrown(message: string)
}
