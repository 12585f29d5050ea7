/** What several parts of the model share. */
module Basics {
  datatype Option<+T> = None | Some(value: T)

  /** One past the largest uint32. */
  const TWO32: nat := 0x1_0000_0000
}
