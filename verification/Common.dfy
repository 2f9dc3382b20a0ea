/** Machine-integer bounds and the failure types shared by every module. */
module Common {
  const MAX_INT32: int := 0x7fff_ffff
  const MAX_INT64: int := 0x7fff_ffff_ffff_ffff
  const TWO_32: int := 0x1_0000_0000
  const TWO_64: int := 0x1_0000_0000_0000_0000

  datatype Option<+T> = None | Some(value: T)

  datatype Result<+T, +E> = Ok(value: T) | Err(error: E)

  function Min(a: int, b: int): int {
    if a < b then a else b
  }

  function Max(a: int, b: int): int {
    if a < b then b else a
  }

  /** Two's-complement wrap-around of an int64 result. */
  function Wrap64(x: int): (r: int)
    ensures -MAX_INT64 - 1 <= r <= MAX_INT64
    ensures -MAX_INT64 - 1 <= x <= MAX_INT64 ==> r == x
  {
    (x + MAX_INT64 + 1) % TWO_64 - MAX_INT64 - 1
  }

  /** Wrap-around of a uint32 result. */
  function Wrap32(x: int): (r: int)
    ensures 0 <= r < TWO_32
    ensures 0 <= x < TWO_32 ==> r == x
  {
    x % TWO_32
  }

  ghost predicate Distinct<T>(s: seq<T>) {
    forall i, j :: 0 <= i < j < |s| ==> s[i] != s[j]
  }
}
