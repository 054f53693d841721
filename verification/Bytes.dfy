/** Bytes and the host-order (little-endian) integer fields of the on-disk formats. */
module Bytes {

  type byte = b: int | 0 <= b < 256
  type Bytes = seq<byte>

  const U32_LIMIT := 0x1_0000_0000
  const U64_LIMIT := 0x1_0000_0000_0000_0000

  type u32 = x: int | 0 <= x < 0x1_0000_0000
  type u64 = x: int | 0 <= x < 0x1_0000_0000_0000_0000

  datatype Option<+T> = None | Some(value: T)

  /** memcpy of a uint32_t. */
  function Le32(x: u32): (r: Bytes)
    ensures |r| == 4
  {
    [x % 256, x / 256 % 256, x / 65536 % 256, x / 16777216]
  }

  function FromLe32(s: Bytes): (x: u32)
    requires |s| == 4
  {
    var b0: int, b1: int, b2: int, b3: int := s[0], s[1], s[2], s[3];
    b0 + 256 * b1 + 65536 * b2 + 16777216 * b3
  }

  /** memcpy of a uint64_t: low word, then high word. */
  function Le64(x: u64): (r: Bytes)
    ensures |r| == 8
  {
    Le32(x % U32_LIMIT) + Le32(x / U32_LIMIT)
  }

  function FromLe64(s: Bytes): (x: u64)
    requires |s| == 8
  {
    FromLe32(s[..4]) + U32_LIMIT * FromLe32(s[4..])
  }

  /** The lowest byte comes first. */
  lemma Le64Value(s: Bytes)
    requires |s| == 8
    ensures var b0: int, b1: int, b2: int, b3: int := s[0], s[1], s[2], s[3];
            var b4: int, b5: int, b6: int, b7: int := s[4], s[5], s[6], s[7];
            FromLe64(s) == b0 + 0x100 * b1 + 0x1_0000 * b2 + 0x100_0000 * b3 + 0x1_0000_0000 * b4
                           + 0x100_0000_0000 * b5 + 0x1_0000_0000_0000 * b6 + 0x100_0000_0000_0000 * b7
  {
  }

  lemma Le32RoundTrip(x: u32)
    ensures FromLe32(Le32(x)) == x
  {
    var a, b := x / 256, x / 65536;
    assert b == a / 256;
    assert x / 16777216 == b / 256;
  }

  lemma Le32Injective(s: Bytes)
    requires |s| == 4
    ensures Le32(FromLe32(s)) == s
  {
    FourDigits(FromLe32(s), s[0], s[1], s[2], s[3]);
  }

  lemma FourDigits(x: int, b0: int, b1: int, b2: int, b3: int)
    requires 0 <= b0 < 256 && 0 <= b1 < 256 && 0 <= b2 < 256 && 0 <= b3 < 256
    requires x == b0 + 256 * b1 + 65536 * b2 + 16777216 * b3
    ensures x % 256 == b0 && x / 256 % 256 == b1 && x / 65536 % 256 == b2 && x / 16777216 == b3
  {
    OneDigit(x, b0, b1 + 256 * b2 + 65536 * b3, 256);
    OneDigit(x / 256, b1, b2 + 256 * b3, 256);
    OneDigit(x, b0 + 256 * b1, b2 + 256 * b3, 65536);
    OneDigit(x / 65536, b2, b3, 256);
    OneDigit(x, b0 + 256 * b1 + 65536 * b2, b3, 16777216);
  }

  lemma OneDigit(x: int, low: int, high: int, base: int)
    requires base == 256 || base == 65536 || base == 16777216 || base == U32_LIMIT
    requires 0 <= low < base && x == low + base * high
    ensures x % base == low && x / base == high
  {
  }

  lemma Le64RoundTrip(x: u64)
    ensures FromLe64(Le64(x)) == x
  {
    Le32RoundTrip(x % U32_LIMIT);
    Le32RoundTrip(x / U32_LIMIT);
    assert Le64(x)[..4] == Le32(x % U32_LIMIT);
    assert Le64(x)[4..] == Le32(x / U32_LIMIT);
  }

  lemma Le64Injective(s: Bytes)
    requires |s| == 8
    ensures Le64(FromLe64(s)) == s
  {
    var lo, hi := FromLe32(s[..4]), FromLe32(s[4..]);
    Le32Injective(s[..4]);
    Le32Injective(s[4..]);
    OneDigit(FromLe64(s), lo, hi, U32_LIMIT);
    assert s == s[..4] + s[4..];
  }
}
