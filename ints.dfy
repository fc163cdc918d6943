/** Machine-integer ranges used throughout the model.
    Values are mathematical integers; the Rust widths are subset types. */
module Ints {
  const U64_MAX: int := 0xFFFF_FFFF_FFFF_FFFF
  const I64_MAX: int := 0x7FFF_FFFF_FFFF_FFFF

  /** `u64` */
  type u64 = x: int | 0 <= x <= 0xFFFF_FFFF_FFFF_FFFF

  /** `NonZeroU64` */
  type NonZeroU64 = x: int | 1 <= x <= 0xFFFF_FFFF_FFFF_FFFF witness 1
}

/** The Option type of the Rust code. */
module Wrappers {
  datatype Option<+T> = None | Some(value: T)
}
