/** Types shared by the models. */
module Common {

  /** A pointer or result that may be NULL or missing. */
  datatype Option<+T> = None | Some(value: T)

  type Byte = b: nat | b < 256

  /** The number of 32-bit words. */
  const WORD: nat := 0x1_0000_0000
}
