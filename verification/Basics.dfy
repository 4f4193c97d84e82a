/**
 What the components share: optional results and the machine's word size.
 */
module Basics {
  /** Unsigned words count modulo 2^32. */
  const TWO32 := 0x1_0000_0000

  datatype Option<T> = None | Some(value: T)
}
