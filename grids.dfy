/** Pixel grids and energy fields of the seam carver.
    A grid is stored row-major as a sequence of rows; every row has the same
    width, and an image is never empty in either dimension. */
module Grids {

  /** An 8-bit channel sample. */
  type Byte = x: int | 0 <= x < 256

  /** One colour pixel, stored in OpenCV's blue-green-red order. */
  datatype Pixel = Bgr(blue: Byte, green: Byte, red: Byte)

  /** A pixel grid, `grid[row][col]`. */
  type Image = seq<seq<Pixel>>

  /** The intensity of one pixel of the single-channel 8-bit energy image. */
  type Intensity = x: int | 0 <= x < 256

  /** The energy image, `energy[row][col]`, with the same shape as the image it was computed from. */
  type Energy = seq<seq<Intensity>>

  /** The number of columns of a grid (that of its first row). */
  function Width<T>(g: seq<seq<T>>): nat {
    if |g| == 0 then 0 else |g[0]|
  }

  /** A non-empty rectangular grid: at least one row, at least one column, all rows equally wide. */
  ghost predicate IsGrid<T>(g: seq<seq<T>>) {
    0 < |g| && 0 < |g[0]| && forall r :: 0 <= r < |g| ==> |g[r]| == |g[0]|
  }

  /** `g` is a grid with exactly `height` rows and `width` columns. */
  ghost predicate HasShape<T>(g: seq<seq<T>>, height: nat, width: nat) {
    |g| == height && forall r :: 0 <= r < |g| ==> |g[r]| == width
  }
}
