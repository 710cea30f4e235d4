/** The two ways the tables in hash.js fail: the explicit `'Key error'` throw,
    and the TypeError that JavaScript raises when a property of `undefined`
    is read or assigned. */
module Failures {

  datatype Error = KeyError | TypeError

  /** The outcome of an operation that returns a value or throws. */
  datatype Result<+T> = Ok(value: T) | Err(error: Error)

  /** The outcome of an operation that returns nothing or throws. */
  datatype Status = Done | Thrown(error: Error)

  datatype Option<+T> = None | Some(value: T)
}
