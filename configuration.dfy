/**
 * Build-time constants of the engine (include/utility/configuration.h) and
 * the integer widths the source relies on.
 */
module Configuration {
  /** Bytes occupied by each primitive when memcpy'd into a buffer. */
  const INT64_T_LENGTH: nat := 8
  const INT_LENGTH: nat := 4
  const BOOL_LENGTH: nat := 1

  /** Number of logical ticks the local clock hands out between wall-clock reads. */
  const TIME_PROVIDER_INTERVAL: int := 1000

  const INT64_MAX: int := 0x7FFF_FFFF_FFFF_FFFF
  const INT64_MIN: int := -0x8000_0000_0000_0000
  const INT32_MAX: int := 0x7FFF_FFFF

  /** Value representable as a C++ int64_t. */
  predicate IsInt64(x: int) {
    INT64_MIN <= x <= INT64_MAX
  }
}
