/** What several components share. */
module Basics {
  datatype Option<T> = None | Some(value: T)

  /** A position in a raster, which may lie outside of it. */
  datatype Pixel = Pixel(x: int, y: int) {
    predicate InRaster(xSize: int, ySize: int) {
      0 <= x < xSize && 0 <= y < ySize
    }
  }

  function Abs(a: int): nat {
    if a < 0 then -a else a
  }

  function Magnitude(a: real): real {
    if a < 0.0 then -a else a
  }

  function Lesser(a: int, b: int): int { if a < b then a else b }
  function Greater(a: int, b: int): int { if a > b then a else b }

  function Least(a: real, b: real): real { if a < b then a else b }
  function Greatest(a: real, b: real): real { if a > b then a else b }
}
