/** What the parts of the model share. */
module Common {

  datatype Option<T> = None | Some(value: T)

  /** Bytes in a page. */
  const PAGE: nat := 4096
  /** One past the largest 32-bit value. */
  const WORD: nat := 0x1_0000_0000
}
