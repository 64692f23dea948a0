/**
 * Page bitmaps. A rendered page is a NumPy array of shape (height, width, 3)
 * holding 8-bit channel values; a grayscale page or a threshold mask has shape
 * (height, width). Both are modelled as a rectangular grid of cells.
 */
module Raster {

  /** An 8-bit channel value (NumPy `uint8`). */
  type Byte = x: int | 0 <= x < 256

  /** One pixel of a 3-channel bitmap; `c0`, `c1`, `c2` are channel indexes 0, 1 and 2. */
  datatype Rgb = Rgb(c0: Byte, c1: Byte, c2: Byte)

  /** A height x width grid stored row by row. */
  datatype Grid<T> = Grid(height: nat, width: nat, cells: seq<seq<T>>) {

    /** The rows have the declared number and length, as every NumPy array does. */
    predicate WellFormed() {
      |cells| == height && forall i :: 0 <= i < |cells| ==> |cells[i]| == width
    }
  }

  /** `g` is a well-formed grid of exactly `h` rows and `w` columns. */
  predicate Fits<T>(g: Grid<T>, h: nat, w: nat) {
    g.WellFormed() && g.height == h && g.width == w
  }

  function Max(a: nat, b: nat): (m: nat)
    ensures m >= a && m >= b && (m == a || m == b)
  {
    if a >= b then a else b
  }

  function Min(a: nat, b: nat): (m: nat)
    ensures m <= a && m <= b && (m == a || m == b)
  {
    if a <= b then a else b
  }
}
