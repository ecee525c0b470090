/**
  Java `int` arithmetic. Both canvases take their coordinates and sizes as
  Java `int`s; where a sum or difference can leave the 32-bit range the model
  wraps it explicitly with `Wrap32`.
 */
module Int32 {
  const INT_MIN: int := -0x8000_0000
  const INT_MAX: int := 0x7FFF_FFFF

  /** `v` fits a Java `int`. */
  predicate IsInt(v: int)
  {
    INT_MIN <= v <= INT_MAX
  }

  /** Java `int` arithmetic: `v` wrapped around into the 32-bit range. */
  function Wrap32(v: int): (r: int)
    ensures IsInt(r) && (IsInt(v) ==> r == v)
    ensures (r - v) % 0x1_0000_0000 == 0
  {
    (v - INT_MIN) % 0x1_0000_0000 + INT_MIN
  }
}
