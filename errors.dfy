/** The encoder's closed error taxonomy (influxdb-line-protocol/src/error.rs).
    The `Fmt` variant, which wraps a fault of the output sink, is not modelled:
    the sink here is an infallible growable string. */
module Errors {

  datatype Error =
    | NamingRestrictions   // a measurement name, tag key or field key begins with `_`
    | EmptyFieldSet        // a point with no field
    | StringLengthLimit    // a checked text component longer than 64 KiB
    | Newline              // a raw newline in a measurement name, tag key, tag value or field key

  /** Rust's `Result<T, Error>`. */
  datatype Result<+T> = Ok(value: T) | Err(error: Error)

  /** Rust's `Option<T>`. */
  datatype Option<+T> = None | Some(value: T)
}
