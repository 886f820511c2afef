/** `getDarkChannel`: a square-window minimum filter over the min-channel map.
    The source pads the map with 255 on every side, by (blockSize - 1) / 2
    cells, and writes the minimum of every blockSize x blockSize window of the
    padded buffer. The specification used here is the minimum over the window
    clipped to the image: a padding cell holds 255, the largest sample, so it
    can never lower a minimum whose window always holds its own centre. */
module DarkChannel {
  import opened Grids

  // ---------------------------------------------------------------------
  // Reference definition: minimum over a clipped window of a map value
  // ---------------------------------------------------------------------

  /** Minimum of `g` over rows [r0, r1) and columns [c0, c1). */
  function RectMin(g: Grid, r0: nat, r1: nat, c0: nat, c1: nat): (m: Byte)
    requires r0 < r1 <= |g| && c0 < c1
    requires forall r | r0 <= r < r1 :: c1 <= |g[r]|
    ensures forall r, c | r0 <= r < r1 && c0 <= c < c1 :: m <= g[r][c]
    ensures exists r, c | r0 <= r < r1 && c0 <= c < c1 :: m == g[r][c]
    decreases r1 - r0, c1 - c0
  {
    if c0 + 1 < c1 then
      Min(RectMin(g, r0, r1, c0, c0 + 1), RectMin(g, r0, r1, c0 + 1, c1))
    else if r0 + 1 < r1 then
      Min(g[r0][c0], RectMin(g, r0 + 1, r1, c0, c1))
    else
      g[r0][c0]
  }

  /** The dark-channel value at (i, j): the minimum of `g` over the square
      [i - a, i + a] x [j - a, j + a], clipped to the map. */
  function ClippedWindowMin(g: Grid, i: nat, j: nat, a: nat): (m: Byte)
    requires IsImage(g) && i < |g| && j < Width(g)
    ensures forall r, c | 0 <= r < |g| && 0 <= c < Width(g) && i - a <= r <= i + a && j - a <= c <= j + a ::
      m <= g[r][c]
    ensures exists r, c | 0 <= r < |g| && 0 <= c < Width(g) && i - a <= r <= i + a && j - a <= c <= j + a ::
      m == g[r][c]
  {
    RectMin(g, Max(0, i - a), Min(|g|, i + a + 1), Max(0, j - a), Min(Width(g), j + a + 1))
  }

  /** The dark channel of a map for an odd window side `blockSize`. */
  function DarkChannelOf(g: Grid, blockSize: int): (d: Grid)
    requires IsImage(g) && blockSize >= 1
    ensures IsGrid(d, |g|, Width(g))
    ensures forall i, j | 0 <= i < |g| && 0 <= j < Width(g) :: d[i][j] <= g[i][j]
  {
    seq(|g|, i requires 0 <= i < |g| =>
      seq(Width(g), j requires 0 <= j < Width(g) => ClippedWindowMin(g, i, j, (blockSize - 1) / 2)))
  }

  // ---------------------------------------------------------------------
  // The padded buffer and the source's window minimum over it
  // ---------------------------------------------------------------------

  /** Minimum of the 2-D array `m` over rows [r0, r1) and columns [c0, c1)
      (numpy `np.min` of a slice). */
  function WindowMin(m: array2<int>, r0: nat, r1: nat, c0: nat, c1: nat): (v: int)
    reads m
    requires r0 < r1 <= m.Length0 && c0 < c1 <= m.Length1
    ensures forall r, c | r0 <= r < r1 && c0 <= c < c1 :: v <= m[r, c]
    ensures exists r, c | r0 <= r < r1 && c0 <= c < c1 :: v == m[r, c]
    decreases r1 - r0, c1 - c0
  {
    if c0 + 1 < c1 then
      Min(WindowMin(m, r0, r1, c0, c0 + 1), WindowMin(m, r0, r1, c0 + 1, c1))
    else if r0 + 1 < r1 then
      Min(m[r0, c0], WindowMin(m, r0 + 1, r1, c0, c1))
    else
      m[r0, c0]
  }

  /** `m` is `g` surrounded by a border of 255 that is `a` cells wide. */
  ghost predicate IsPadded(m: array2<int>, g: Grid, a: nat)
    reads m
    requires IsImage(g)
  {
    m.Length0 == |g| + 2 * a && m.Length1 == Width(g) + 2 * a &&
    forall r, c | 0 <= r < m.Length0 && 0 <= c < m.Length1 ::
      m[r, c] == if a <= r < |g| + a && a <= c < Width(g) + a then g[r - a][c - a] else 255
  }

  /** The window of side 2a + 1 of the padded buffer whose top-left corner is
      (i, j) has the same minimum as the window of `g` centred at (i, j),
      clipped to `g`: the padding never lowers a minimum. */
  lemma PaddedWindowIsClipped(m: array2<int>, g: Grid, a: nat, i: nat, j: nat)
    requires IsImage(g) && IsPadded(m, g, a)
    requires i < |g| && j < Width(g)
    ensures WindowMin(m, i, i + 2 * a + 1, j, j + 2 * a + 1) == ClippedWindowMin(g, i, j, a)
  {
    PaddedAtMostClipped(m, g, a, i, j);
    ClippedAtMostPadded(m, g, a, i, j);
  }

  /** The clipped minimum is a cell of g, hence a cell of the padded window. */
  lemma PaddedAtMostClipped(m: array2<int>, g: Grid, a: nat, i: nat, j: nat)
    requires IsImage(g) && IsPadded(m, g, a)
    requires i < |g| && j < Width(g)
    ensures WindowMin(m, i, i + 2 * a + 1, j, j + 2 * a + 1) <= ClippedWindowMin(g, i, j, a)
  {
    var k := ClippedWindowMin(g, i, j, a);
    var r, c :| 0 <= r < |g| && 0 <= c < Width(g) && i - a <= r <= i + a && j - a <= c <= j + a && k == g[r][c];
    assert m[r + a, c + a] == g[r][c];
  }

  /** The padded minimum is either a cell of the clipped window or 255. */
  lemma ClippedAtMostPadded(m: array2<int>, g: Grid, a: nat, i: nat, j: nat)
    requires IsImage(g) && IsPadded(m, g, a)
    requires i < |g| && j < Width(g)
    ensures ClippedWindowMin(g, i, j, a) <= WindowMin(m, i, i + 2 * a + 1, j, j + 2 * a + 1)
  {
    var v := WindowMin(m, i, i + 2 * a + 1, j, j + 2 * a + 1);
    var r', c' :| i <= r' < i + 2 * a + 1 && j <= c' < j + 2 * a + 1 && v == m[r', c'];
    if a <= r' < |g| + a && a <= c' < Width(g) + a {
      assert v == g[r' - a][c' - a];
    }
  }

  // ---------------------------------------------------------------------
  // getDarkChannel as written: padded buffer, then a nested loop
  // ---------------------------------------------------------------------

  /** Allocates the (H + blockSize - 1) x (W + blockSize - 1) buffer of 255
      and copies the map into its interior (`imgMiddle`). */
  method MakePadded(img: Grid, a: nat) returns (middle: array2<int>)
    requires IsImage(img)
    ensures fresh(middle) && IsPadded(middle, img, a)
  {
    var h := |img| + 2 * a;
    var w := Width(img) + 2 * a;
    middle := new int[h, w]((_, _) => 255);
    forall r, c | a <= r < h - a && a <= c < w - a {
      middle[r, c] := img[r - a][c - a];
    }
  }

  /** The minimum of the window of side 2a + 1 whose top-left corner in the
      padded buffer is (i, j) (`np.min(imgMiddle[i-A:i+A+1, j-A:j+A+1])` in
      the source's own indices). */
  method BlockMin(middle: array2<int>, img: Grid, a: nat, i: nat, j: nat) returns (v: Byte)
    requires IsImage(img) && IsPadded(middle, img, a)
    requires i < |img| && j < Width(img)
    ensures v == ClippedWindowMin(img, i, j, a)
  {
    PaddedWindowIsClipped(middle, img, a, i, j);
    v := WindowMin(middle, i, i + 2 * a + 1, j, j + 2 * a + 1);
  }

  /** The cells of `dark` in rows [0, rows) hold the map `want`. */
  ghost predicate RowsDone(dark: array2<Byte>, want: Grid, rows: nat)
    reads dark
    requires IsGrid(want, dark.Length0, dark.Length1)
  {
    forall r, c | 0 <= r < rows && r < dark.Length0 && 0 <= c < dark.Length1 :: dark[r, c] == want[r][c]
  }

  /** The inner loop of lines 33-34 for padded row i = row + A: every cell of
      output row `row` gets the minimum of its window of the padded buffer. */
  method FillRow(middle: array2<int>, img: Grid, a: nat, dark: array2<Byte>, ghost want: Grid, row: nat)
    requires IsImage(img) && IsPadded(middle, img, a) && row < |img|
    requires dark.Length0 == |img| && dark.Length1 == Width(img)
    requires IsGrid(want, |img|, Width(img))
    requires forall c | 0 <= c < Width(img) :: want[row][c] == ClippedWindowMin(img, row, c, a)
    requires RowsDone(dark, want, row)
    modifies dark
    ensures RowsDone(dark, want, row + 1)
    ensures forall r, c | row < r < dark.Length0 && 0 <= c < dark.Length1 :: dark[r, c] == old(dark[r, c])
  {
    for j := a to Width(img) + a
      invariant RowsDone(dark, want, row)
      invariant forall c | 0 <= c < j - a :: dark[row, c] == want[row][c]
      invariant forall r, c | row < r < dark.Length0 && 0 <= c < dark.Length1 :: dark[r, c] == old(dark[r, c])
    {
      var col := j - a;
      var v := BlockMin(middle, img, a, row, col);
      assert v == want[row][col];
      label Before:
      dark[row, col] := v;
      forall c | 0 <= c < col + 1
        ensures dark[row, c] == want[row][c]
      {
        if c < col {
          assert dark[row, c] == old@Before(dark[row, c]);
        }
      }
    }
  }

  /** The outer loop of lines 32-34, one output row per padded row i. */
  method FillDark(middle: array2<int>, img: Grid, a: nat, dark: array2<Byte>, ghost want: Grid)
    requires IsImage(img) && IsPadded(middle, img, a)
    requires dark.Length0 == |img| && dark.Length1 == Width(img)
    requires IsGrid(want, |img|, Width(img))
    requires forall r, c | 0 <= r < |img| && 0 <= c < Width(img) :: want[r][c] == ClippedWindowMin(img, r, c, a)
    modifies dark
    ensures RowsDone(dark, want, |img|)
  {
    for i := a to |img| + a
      invariant RowsDone(dark, want, i - a)
    {
      FillRow(middle, img, a, dark, want, i - a);
    }
  }

  /** `getDarkChannel`: the padded buffer, a zero output of the map's shape,
      then the nested loop. */
  method GetDarkChannel(img: Grid, blockSize: int) returns (dark: array2<Byte>)
    requires IsImage(img)
    requires blockSize >= 1 && blockSize % 2 == 1
    ensures fresh(dark)
    ensures dark.Length0 == |img| && dark.Length1 == Width(img)
    ensures forall i, j | 0 <= i < |img| && 0 <= j < Width(img) ::
      dark[i, j] == ClippedWindowMin(img, i, j, (blockSize - 1) / 2)
  {
    var a := (blockSize - 1) / 2;
    assert 2 * a == blockSize - 1;
    var middle := MakePadded(img, a);
    dark := new Byte[|img|, Width(img)];
    ghost var want := DarkChannelOf(img, blockSize);
    forall r, c | 0 <= r < |img| && 0 <= c < Width(img)
      ensures want[r][c] == ClippedWindowMin(img, r, c, a)
    {
      DarkChannelAt(img, blockSize, r, c);
    }
    FillDark(middle, img, a, dark, want);
  }

  // ---------------------------------------------------------------------
  // Properties of the dark channel
  // ---------------------------------------------------------------------

  /** The dark channel at one cell is its clipped-window minimum. */
  lemma DarkChannelAt(g: Grid, blockSize: int, i: nat, j: nat)
    requires IsImage(g) && blockSize >= 1
    requires i < |g| && j < Width(g)
    ensures DarkChannelOf(g, blockSize)[i][j] == ClippedWindowMin(g, i, j, (blockSize - 1) / 2)
  {
  }

  /** With blockSize 1 the window is the pixel itself: the filter is the identity. */
  lemma {:induction false} DarkChannelOfBlockOne(g: Grid)
    requires IsImage(g)
    ensures DarkChannelOf(g, 1) == g
  {
    var d := DarkChannelOf(g, 1);
    forall i, j | 0 <= i < |g| && 0 <= j < Width(g)
      ensures d[i][j] == g[i][j]
    {
      var k := ClippedWindowMin(g, i, j, 0);
      DarkChannelAt(g, 1, i, j);
      var r, c :| 0 <= r < |g| && 0 <= c < Width(g) && i <= r <= i && j <= c <= j && k == g[r][c];
    }
    GridExtensionality(d, g, |g|, Width(g));
  }

  /** A larger window can only lower the dark channel. */
  lemma DarkChannelAntitone(g: Grid, small: int, large: int, i: nat, j: nat)
    requires IsImage(g) && 1 <= small <= large
    requires i < |g| && j < Width(g)
    ensures DarkChannelOf(g, large)[i][j] <= DarkChannelOf(g, small)[i][j]
  {
    var a, b := (small - 1) / 2, (large - 1) / 2;
    assert a <= b;
    DarkChannelAt(g, small, i, j);
    DarkChannelAt(g, large, i, j);
    var k := ClippedWindowMin(g, i, j, a);
    var r, c :| 0 <= r < |g| && 0 <= c < Width(g) && i - a <= r <= i + a && j - a <= c <= j + a && k == g[r][c];
    assert i - b <= r <= i + b && j - b <= c <= j + b;
  }

  /** A constant map is its own dark channel, for every window size. */
  lemma DarkChannelOfUniform(g: Grid, blockSize: int, v: Byte)
    requires IsImage(g) && blockSize >= 1
    requires forall i, j | 0 <= i < |g| && 0 <= j < Width(g) :: g[i][j] == v
    ensures forall i, j | 0 <= i < |g| && 0 <= j < Width(g) :: DarkChannelOf(g, blockSize)[i][j] == v
  {
    var a := (blockSize - 1) / 2;
    forall i, j | 0 <= i < |g| && 0 <= j < Width(g)
      ensures DarkChannelOf(g, blockSize)[i][j] == v
    {
      DarkChannelAt(g, blockSize, i, j);
      var k := ClippedWindowMin(g, i, j, a);
      var r, c :| 0 <= r < |g| && 0 <= c < Width(g) && i - a <= r <= i + a && j - a <= c <= j + a && k == g[r][c];
    }
  }
}
