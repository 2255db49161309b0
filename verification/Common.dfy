/** Machine integers, bytes and the small generic types that every component shares. */
module Common {

  type byte = x: int | 0 <= x < 0x100

  const TWO_TO_THE_63 := 0x8000_0000_0000_0000
  const TWO_TO_THE_64 := 0x1_0000_0000_0000_0000

  type uint64 = x: int | 0 <= x < TWO_TO_THE_64
  type int64 = x: int | -TWO_TO_THE_63 <= x < TWO_TO_THE_63

  const MAX_INT64: int64 := 0x7fff_ffff_ffff_ffff

  /** A Go byte slice: its length is an int. */
  type Slice = s: seq<byte> | |s| <= MAX_INT64 witness []

  /** The 64-bit two's complement reading of a mathematical integer, as Go's int arithmetic
      and conversions wrap around. */
  function WrapInt64(x: int): int64
    decreases if x < 0 then -x - 1 else x
  {
    if x >= TWO_TO_THE_63 then WrapInt64(x - TWO_TO_THE_64)
    else if x < -TWO_TO_THE_63 then WrapInt64(x + TWO_TO_THE_64)
    else x
  }

  lemma {:induction false} WrapOnce(x: int)
    ensures WrapInt64(x + TWO_TO_THE_64) == WrapInt64(x)
    decreases if x < 0 then -x - 1 else x
  {
    if x < -TWO_TO_THE_63 {
      WrapOnce(x + TWO_TO_THE_64);
    }
  }

  lemma {:induction false} WrapTwice(x: int, y: int)
    ensures WrapInt64(WrapInt64(x) + y) == WrapInt64(x + y)
    decreases if x < 0 then -x - 1 else x
  {
    if x >= TWO_TO_THE_63 {
      WrapTwice(x - TWO_TO_THE_64, y);
      WrapOnce(x - TWO_TO_THE_64 + y);
    } else if x < -TWO_TO_THE_63 {
      WrapTwice(x + TWO_TO_THE_64, y);
      WrapOnce(x + y);
    }
  }

  /** Go's conversion uint64(x) of a signed 64-bit value. */
  function ToUint64(x: int64): (r: uint64)
    ensures WrapInt64(r) == x
  {
    if x < 0 then x + TWO_TO_THE_64 else x
  }

  datatype Option<+T> = None | Some(value: T)

  datatype Result<+T, +E> = Ok(value: T) | Err(error: E)

  function Min(a: int, b: int): int {
    if a < b then a else b
  }

  function Max(a: int, b: int): int {
    if a < b then b else a
  }

  lemma {:induction false} ModUnique(x: int, d: int, q: int, r: int)
    requires 0 <= r < d && x == q * d + r
    ensures x % d == r && x / d == q
  {
    MulBound(q - x / d, d);
    assert (q - x / d) * d == x % d - r;
  }

  lemma {:induction false} MulBound(m: int, d: int)
    requires d >= 0
    ensures m >= 1 ==> m * d >= d
    ensures m <= -1 ==> m * d <= 0 - d
  {
  }
}
