/** Constants and machine types shared by the LZ4 modules (64-bit little-endian platform). */
module Lz4Defs {

  type byte = x: int | 0 <= x < 0x100
  type U32 = x: int | 0 <= x < 0x1_0000_0000

  const MINMATCH: nat := 4
  const WILDCOPYLENGTH: nat := 8
  const LASTLITERALS: nat := 5
  const MFLIMIT: nat := 12
  const MATCH_SAFEGUARD_DISTANCE: nat := 2 * WILDCOPYLENGTH - MINMATCH
  const FASTLOOP_SAFE_DISTANCE: nat := 64
  const MIN_LENGTH: nat := MFLIMIT + 1
  const DISTANCE_MAX: nat := 65535
  const ML_MASK: nat := 15
  const RUN_MASK: nat := 15
  const INT_MAX: nat := 0x7FFF_FFFF
  const MAX_INPUT_SIZE: nat := 0x7E00_0000
  const KB64: nat := 65536
  const GB1: nat := 0x4000_0000
  const LIMIT_64K: nat := KB64 + MFLIMIT - 1

  datatype Option<+T> = None | Some(value: T)

  /** LZ4_COMPRESSBOUND. */
  function CompressBound(n: nat): nat
  {
    if n > MAX_INPUT_SIZE then 0 else n + n / 255 + 16
  }

  function Min(a: int, b: int): int
  {
    if a < b then a else b
  }

  function Max(a: int, b: int): int
  {
    if a > b then a else b
  }
}
