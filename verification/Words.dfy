/** Integers of fixed width, as Go and C convert to them. */
module Words {

  type byte = b: int | 0 <= b < 256

  const INT32_LIMIT := 0x8000_0000
  const INT64_LIMIT := 0x8000_0000_0000_0000

  predicate FitsInt32(n: int) { -INT32_LIMIT <= n < INT32_LIMIT }

  predicate FitsInt64(n: int) { -INT64_LIMIT <= n < INT64_LIMIT }

  function Int8(n: int): int { (n + 128) % 256 - 128 }

  function Int32(n: int): int { (n + INT32_LIMIT) % (2 * INT32_LIMIT) - INT32_LIMIT }
}
