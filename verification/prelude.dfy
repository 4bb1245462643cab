/** Shared vocabulary: fixed-width integer ranges and the two failure-carrying
    wrappers the model uses in place of `std::expected` and `std::optional`. */
module Prelude {

  /** `std::uint8_t` */
  type byte = b: int | 0 <= b < 0x100

  /** `WORD` */
  type word = w: int | 0 <= w < 0x1_0000

  /** `DWORD` (unsigned 32-bit) */
  type dword = d: int | 0 <= d < 0x1_0000_0000

  /** Number of distinct `std::uintptr_t` values (64-bit build). */
  const UintptrLimit: nat := 0x1_0000_0000_0000_0000

  /** Number of distinct `DWORD` values. */
  const DwordLimit: nat := 0x1_0000_0000

  /** `std::optional<T>` */
  datatype Option<+T> = None | Some(value: T)

  /** `std::expected<T, E>` */
  datatype Result<+T, +E> = Ok(value: T) | Err(error: E)
}
