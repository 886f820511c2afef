/** Shared vocabulary of the dehazing pipeline: 8-bit samples, three-channel
    pixels, row-major images and single-channel maps, and the optional result
    used where the pipeline would divide by zero. */
module Grids {

  /** An unsigned 8-bit sample (numpy `uint8`). */
  type Byte = x: int | 0 <= x < 256

  /** One pixel of a colour image: exactly three channel samples. */
  type Pixel = p: seq<Byte> | |p| == 3 witness [0, 0, 0]

  /** An H x W x 3 colour image, row by row. */
  type Image = seq<seq<Pixel>>

  /** An H x W single-channel map of 8-bit samples (min channel, dark channel). */
  type Grid = seq<seq<Byte>>

  datatype Option<T> = None | Some(value: T)

  /** `g` has `h` rows of `w` entries each. */
  predicate IsGrid<T>(g: seq<seq<T>>, h: nat, w: nat) {
    |g| == h && forall i | 0 <= i < h :: |g[i]| == w
  }

  /** A non-empty rectangular image, as the image loader and the camera deliver. */
  predicate IsImage<T>(img: seq<seq<T>>) {
    |img| > 0 && |img[0]| > 0 && IsGrid(img, |img|, |img[0]|)
  }

  function Width<T>(img: seq<seq<T>>): nat
    requires |img| > 0
  {
    |img[0]|
  }

  function Min(a: int, b: int): int {
    if a <= b then a else b
  }

  function Max(a: int, b: int): int {
    if a >= b then a else b
  }

  lemma ProductNonNegative(a: real, b: real)
    requires a >= 0.0 && b >= 0.0
    ensures a * b >= 0.0
  {
  }

  /** The contents of a 2-D array as a map value. */
  ghost function GridOf(a: array2<Byte>): (g: Grid)
    reads a
    ensures IsGrid(g, a.Length0, a.Length1)
    ensures forall i, j | 0 <= i < a.Length0 && 0 <= j < a.Length1 :: g[i][j] == a[i, j]
  {
    seq(a.Length0, i requires 0 <= i < a.Length0 reads a =>
      seq(a.Length1, j requires 0 <= j < a.Length1 reads a => a[i, j]))
  }

  /** Two rectangular maps of the same shape that agree everywhere are equal. */
  lemma {:induction false} GridExtensionality(g1: Grid, g2: Grid, h: nat, w: nat)
    requires IsGrid(g1, h, w) && IsGrid(g2, h, w)
    requires forall i, j | 0 <= i < h && 0 <= j < w :: g1[i][j] == g2[i][j]
    ensures g1 == g2
  {
    forall i | 0 <= i < h
      ensures g1[i] == g2[i]
    {
      assert forall j | 0 <= j < w :: g1[i][j] == g2[i][j];
    }
  }
}
