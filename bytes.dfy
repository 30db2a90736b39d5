/** Octets and the optional value shared by the rest of the model. */
module Bytes {

  /** An octet. Kotlin's `Byte` is signed, but every place the responder
      interprets a byte it first masks it with `and 0xFF`, so the model keeps
      the unsigned reading 0..255 throughout. */
  type byte = x: int | 0 <= x < 256

  /** A value that may be absent: a null reference, or a conversion that throws. */
  datatype Option<+T> = None | Some(value: T)
}
