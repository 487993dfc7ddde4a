/** Machine limits, bytes and results shared by every model in the project. */
module Words {

  /** The largest value of `std::size_t` and `std::uint64_t` on the modelled platforms. */
  const U64_MAX: nat := 0xFFFF_FFFF_FFFF_FFFF
  const U32_MAX: nat := 0xFFFF_FFFF
  const I64_MAX: nat := 0x7FFF_FFFF_FFFF_FFFF

  /** A byte read as an unsigned number. */
  type byte = x: int | 0 <= x < 256

  datatype Option<+T> = None | Some(value: T)

  /** The error codes of `laghu::core::ErrorCode` that the modelled code reports. */
  datatype ErrorCode =
    | InvalidInput
    | InvalidRange
    | Overflow
    | Exhaustion
    | InvalidState
    | Cancellation
    | CorruptData
    | UnsupportedVersion
    | Checksum
    | Dependency

  datatype Result<+T> = Ok(value: T) | Err(error: ErrorCode)

  /** The value of an operation that returns nothing. */
  datatype Unit = Unit
}
