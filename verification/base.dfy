/** Machine integer widths used by the firmware, and an optional value. */
module Base {

  /** Rust `u16`. Arithmetic on it is written out where it can overflow. */
  type u16 = x: int | 0 <= x < 0x1_0000

  const U16_LIMIT: int := 0x1_0000

  /** Rust's `Option`. */
  datatype Option<+T> = None | Some(value: T)
}
