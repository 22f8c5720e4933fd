/**
 * Pixels and images as the numpy arrays of remover.py hold them: a grid of
 * rows, every row of the same width, every pixel a fixed number of 8-bit
 * channels.
 */
module Raster {

  /** One uint8 channel value. */
  type Byte = x: int | 0 <= x < 256

  /**
   * Three channels in array order. With T = Byte this is an RGB (or, in the
   * live loop, BGR) pixel or the stacked 3-channel mask; with T = real it is
   * the float64 pixel the blend computes.
   */
  datatype Rgb<T> = Rgb(r: T, g: T, b: T)

  /** A pixel of the segmented foreground after convert("RGBA"). */
  datatype Rgba = Rgba(r: Byte, g: Byte, b: Byte, a: Byte)

  function Width<T>(g: seq<seq<T>>): nat
  {
    if |g| == 0 then 0 else |g[0]|
  }

  predicate IsRectangular<T>(g: seq<seq<T>>)
  {
    forall i :: 0 <= i < |g| ==> |g[i]| == Width(g)
  }

  /** A height-by-width array: rows of equal length. */
  type Grid<T> = g: seq<seq<T>> | IsRectangular(g) witness []

  /** The (height, width) part of a numpy shape. */
  function Shape<T>(g: Grid<T>): (nat, nat)
  {
    (|g|, Width(g))
  }

  predicate InBounds<T>(g: Grid<T>, i: int, j: int)
  {
    0 <= i < |g| && 0 <= j < Width(g)
  }

  /** An elementwise numpy operation: f applied to every pixel, the shape kept. */
  function MapPixels<A, B>(g: Grid<A>, f: A -> B): (r: Grid<B>)
    ensures Shape(r) == Shape(g)
    ensures forall i, j :: InBounds(g, i, j) ==> r[i][j] == f(g[i][j])
  {
    seq(|g|, i requires 0 <= i < |g| =>
      seq(Width(g), j requires 0 <= j < Width(g) => f(g[i][j])))
  }
}
