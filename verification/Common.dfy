/** What several parts share: optional values and the 32-bit range. */
module Common {

  datatype Option<T> = None | Some(value: T)

  /** One more than the largest 32-bit value. */
  const WORD32: nat := 0x1_0000_0000
}
