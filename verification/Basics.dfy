/** Machine words of a 64-bit machine, and optional values. */
module Basics {

  const XLEN: nat := 64
  /** 2^64 */
  const WORDS: nat := 0x1_0000_0000_0000_0000

  type Word = x: nat | x < WORDS

  datatype Option<T> = None | Some(value: T)
}
