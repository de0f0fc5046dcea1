/** Values shared by the reader's parts: bytes as the USB library hands them
    over, and Python's `None` against a present value. */
module Basics {

  /** One element of the byte arrays and descriptor fields the USB library gives. */
  type byte = bv8

  datatype Option<+T> = None | Some(value: T)
}
