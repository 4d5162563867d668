/** What several of the modules need. */
module Basics {

  /** The number of values of a 64-bit word. */
  const WORD: nat := 0x1_0000_0000_0000_0000

  datatype Option<T> = None | Some(value: T)
}
