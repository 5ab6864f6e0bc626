/** Small value types shared by the modules of the model. */
module Common {

  /** A value that may be absent: SQL NULL, Python `None`. */
  datatype Option<T> = None | Some(value: T)

  /** An image as the store keeps it: an opaque blob of bytes. */
  type Bytes = seq<bv8>
}
