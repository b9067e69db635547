/** PHP strings are byte strings; the credential encodings work on bytes. */
module Bytes {
  type Byte = b: int | 0 <= b < 256

  /** The byte ':' that separates key and secret in the Basic credential. */
  const Colon: Byte := 58
}
