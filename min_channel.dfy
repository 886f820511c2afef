/** `getMinChannel`: the per-pixel minimum over the three colour channels
    (numpy `np.min(img, axis=2)`). */
module MinChannel {
  import opened Grids

  /** The smallest of a pixel's three samples. */
  function PixelMin(p: Pixel): (m: Byte)
    ensures forall c | 0 <= c < 3 :: m <= p[c]
    ensures m in p
  {
    Min(Min(p[0], p[1]), p[2])
  }

  /** The H x W map of channel minima of an H x W x 3 image. */
  function GetMinChannel(img: Image): (g: Grid)
    requires IsImage(img)
    ensures IsGrid(g, |img|, Width(img))
    ensures forall i, j, c | 0 <= i < |img| && 0 <= j < Width(img) && 0 <= c < 3 ::
      g[i][j] <= img[i][j][c]
    ensures forall i, j | 0 <= i < |img| && 0 <= j < Width(img) :: g[i][j] in img[i][j]
  {
    seq(|img|, i requires 0 <= i < |img| =>
      seq(Width(img), j requires 0 <= j < Width(img) => PixelMin(img[i][j])))
  }

  /** An image whose every sample is `v` has the constant map `v` as its min channel. */
  lemma {:induction false} MinChannelOfUniform(img: Image, v: Byte)
    requires IsImage(img)
    requires forall i, j, c | 0 <= i < |img| && 0 <= j < Width(img) && 0 <= c < 3 :: img[i][j][c] == v
    ensures forall i, j | 0 <= i < |img| && 0 <= j < Width(img) :: GetMinChannel(img)[i][j] == v
  {
    var g := GetMinChannel(img);
    forall i, j | 0 <= i < |img| && 0 <= j < Width(img)
      ensures g[i][j] == v
    {
      assert g[i][j] in img[i][j];
    }
  }
}
