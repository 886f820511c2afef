/** `getAtomsphericLight`: rank every pixel by its dark-channel value,
    brightest first (a stable sort, so equal values stay in row-major order),
    take the first int(percent * size) of them and return the largest
    original sample, over the three channels, among those pixels. */
module AtmosphericLight {
  import opened Grids

  /** One candidate pixel: its row `x`, its column `y` and its dark-channel value. */
  datatype Node = Node(x: nat, y: nat, value: Byte)

  // ---------------------------------------------------------------------
  // The row-major list of candidates
  // ---------------------------------------------------------------------

  /** The nodes of columns [0, j) of row i. */
  function RowNodes(g: Grid, i: nat, j: nat): seq<Node>
    requires i < |g| && j <= |g[i]|
  {
    if j == 0 then [] else RowNodes(g, i, j - 1) + [Node(i, j - 1, g[i][j - 1])]
  }

  /** The nodes of rows [0, i), row by row. */
  function NodesUpTo(g: Grid, i: nat): seq<Node>
    requires i <= |g|
  {
    if i == 0 then [] else NodesUpTo(g, i - 1) + RowNodes(g, i - 1, |g[i - 1]|)
  }

  /** `[Node(i, j, dark[i, j]) for i in range(H) for j in range(W)]`. */
  function RowMajorNodes(g: Grid): seq<Node> {
    NodesUpTo(g, |g|)
  }

  /** Position `a` comes before position `b` in row-major order. */
  predicate PosBefore(a: Node, b: Node) {
    a.x < b.x || (a.x == b.x && a.y < b.y)
  }

  /** Positions strictly increase in row-major order (so no position repeats). */
  predicate InRowMajorOrder(ns: seq<Node>) {
    forall p, q | 0 <= p < q < |ns| :: PosBefore(ns[p], ns[q])
  }

  /** `n` names a pixel of `g` and carries that pixel's value. */
  predicate IsPixelOf(n: Node, g: Grid) {
    n.x < |g| && n.y < |g[n.x]| && n.value == g[n.x][n.y]
  }

  lemma {:induction false} RowNodesShape(g: Grid, i: nat, j: nat)
    requires i < |g| && j <= |g[i]|
    ensures |RowNodes(g, i, j)| == j
    ensures forall p | 0 <= p < j :: RowNodes(g, i, j)[p] == Node(i, p, g[i][p])
  {
    if j > 0 {
      RowNodesShape(g, i, j - 1);
    }
  }

  lemma {:induction false} NodesUpToPixels(g: Grid, w: nat, i: nat)
    requires IsGrid(g, |g|, w) && i <= |g|
    ensures |NodesUpTo(g, i)| == i * w
    ensures forall p | 0 <= p < |NodesUpTo(g, i)| ::
      IsPixelOf(NodesUpTo(g, i)[p], g) && NodesUpTo(g, i)[p].x < i
  {
    if i > 0 {
      NodesUpToPixels(g, w, i - 1);
      RowNodesShape(g, i - 1, w);
      var prev, row := NodesUpTo(g, i - 1), RowNodes(g, i - 1, w);
      assert NodesUpTo(g, i) == prev + row;
      assert |prev + row| == (i - 1) * w + w == i * w;
      forall p | 0 <= p < |prev + row|
        ensures IsPixelOf((prev + row)[p], g) && (prev + row)[p].x < i
      {
        if p >= |prev| {
          assert (prev + row)[p] == row[p - |prev|];
        } else {
          assert (prev + row)[p] == prev[p];
        }
      }
    }
  }

  lemma {:induction false} NodesUpToCovers(g: Grid, w: nat, i: nat)
    requires IsGrid(g, |g|, w) && i <= |g|
    ensures forall r, c | 0 <= r < i && 0 <= c < w :: Node(r, c, g[r][c]) in NodesUpTo(g, i)
  {
    if i > 0 {
      NodesUpToCovers(g, w, i - 1);
      RowNodesShape(g, i - 1, w);
      var prev, row := NodesUpTo(g, i - 1), RowNodes(g, i - 1, w);
      assert NodesUpTo(g, i) == prev + row;
      forall r, c | 0 <= r < i && 0 <= c < w
        ensures Node(r, c, g[r][c]) in prev + row
      {
        if r == i - 1 {
          assert (prev + row)[|prev| + c] == row[c];
        } else {
          assert Node(r, c, g[r][c]) in prev;
        }
      }
    }
  }

  lemma {:induction false} NodesUpToOrdered(g: Grid, w: nat, i: nat)
    requires IsGrid(g, |g|, w) && i <= |g|
    ensures InRowMajorOrder(NodesUpTo(g, i))
  {
    if i > 0 {
      NodesUpToOrdered(g, w, i - 1);
      NodesUpToPixels(g, w, i - 1);
      RowNodesShape(g, i - 1, w);
      var prev, row := NodesUpTo(g, i - 1), RowNodes(g, i - 1, w);
      var ns := prev + row;
      assert NodesUpTo(g, i) == ns;
      forall p, q | 0 <= p < q < |ns|
        ensures PosBefore(ns[p], ns[q])
      {
        if q < |prev| {
          assert ns[p] == prev[p] && ns[q] == prev[q];
        } else if p >= |prev| {
          assert ns[p] == row[p - |prev|] && ns[q] == row[q - |prev|];
        } else {
          assert ns[p] == prev[p] && ns[q] == row[q - |prev|];
        }
      }
    }
  }

  /** The candidate list holds every pixel of the map exactly once, in
      row-major order, each with its own value. */
  lemma RowMajorNodesEnumerate(g: Grid)
    requires IsImage(g)
    ensures |RowMajorNodes(g)| == |g| * Width(g)
    ensures forall p | 0 <= p < |RowMajorNodes(g)| :: IsPixelOf(RowMajorNodes(g)[p], g)
    ensures forall r, c | 0 <= r < |g| && 0 <= c < Width(g) :: Node(r, c, g[r][c]) in RowMajorNodes(g)
    ensures InRowMajorOrder(RowMajorNodes(g))
  {
    NodesUpToPixels(g, Width(g), |g|);
    NodesUpToCovers(g, Width(g), |g|);
    NodesUpToOrdered(g, Width(g), |g|);
  }

  // ---------------------------------------------------------------------
  // Python's stable `sorted(nodes, key=value, reverse=True)`
  // ---------------------------------------------------------------------

  predicate NonIncreasing(s: seq<Node>) {
    forall p, q | 0 <= p < q < |s| :: s[p].value >= s[q].value
  }

  /** `a` precedes `b` in the ranking: a higher value, or an equal value at an
      earlier row-major position. */
  predicate RanksBefore(a: Node, b: Node) {
    a.value > b.value || (a.value == b.value && PosBefore(a, b))
  }

  predicate Ranked(s: seq<Node>) {
    forall p, q | 0 <= p < q < |s| :: RanksBefore(s[p], s[q])
  }

  /** Inserts `n` before the first node whose value is not larger than its own. */
  function Insert(n: Node, s: seq<Node>): (r: seq<Node>)
    ensures multiset(r) == multiset(s) + multiset{n}
  {
    if s == [] || s[0].value <= n.value then
      [n] + s
    else
      assert s == [s[0]] + s[1..];
      [s[0]] + Insert(n, s[1..])
  }

  /** Every node of a non-increasing list is at most its head. */
  lemma HeadIsLargest(s: seq<Node>)
    requires NonIncreasing(s) && s != []
    ensures forall m | m in s :: m.value <= s[0].value
  {
    forall m | m in s
      ensures m.value <= s[0].value
    {
      var k :| 0 <= k < |s| && s[k] == m;
    }
  }

  lemma NonIncreasingTail(s: seq<Node>)
    requires NonIncreasing(s) && s != []
    ensures NonIncreasing(s[1..])
  {
    forall p, q | 0 <= p < q < |s[1..]|
      ensures s[1..][p].value >= s[1..][q].value
    {
      assert s[1..][p] == s[p + 1] && s[1..][q] == s[q + 1];
    }
  }

  /** A node no smaller than any node of a non-increasing list may go in front. */
  lemma ConsNonIncreasing(x: Node, s: seq<Node>)
    requires NonIncreasing(s)
    requires forall m | m in s :: m.value <= x.value
    ensures NonIncreasing([x] + s)
  {
    var r := [x] + s;
    forall p, q | 0 <= p < q < |r|
      ensures r[p].value >= r[q].value
    {
      assert r[q] == s[q - 1];
      if p > 0 {
        assert r[p] == s[p - 1];
      }
    }
  }

  lemma {:induction false} InsertNonIncreasing(n: Node, s: seq<Node>)
    requires NonIncreasing(s)
    ensures NonIncreasing(Insert(n, s))
  {
    if s == [] || s[0].value <= n.value {
      if s != [] {
        HeadIsLargest(s);
      }
      ConsNonIncreasing(n, s);
    } else {
      var rest := Insert(n, s[1..]);
      NonIncreasingTail(s);
      InsertNonIncreasing(n, s[1..]);
      HeadIsLargest(s);
      forall m | m in rest
        ensures m.value <= s[0].value
      {
        assert m in multiset(rest);
        if m != n {
          assert m in multiset(s[1..]);
          assert m in s;
        }
      }
      ConsNonIncreasing(s[0], rest);
    }
  }

  /** A stable sort by value, largest first (insertion sort). */
  function SortByValueDesc(s: seq<Node>): (r: seq<Node>)
    ensures multiset(r) == multiset(s)
    ensures NonIncreasing(r)
  {
    if s == [] then []
    else
      assert s == [s[0]] + s[1..];
      var sorted := SortByValueDesc(s[1..]);
      InsertNonIncreasing(s[0], sorted);
      Insert(s[0], sorted)
  }

  lemma RankedTail(s: seq<Node>)
    requires Ranked(s) && s != []
    ensures Ranked(s[1..])
    ensures forall m | m in s[1..] :: RanksBefore(s[0], m)
  {
    forall p, q | 0 <= p < q < |s[1..]|
      ensures RanksBefore(s[1..][p], s[1..][q])
    {
      assert s[1..][p] == s[p + 1] && s[1..][q] == s[q + 1];
    }
    forall m | m in s[1..]
      ensures RanksBefore(s[0], m)
    {
      var k :| 0 <= k < |s[1..]| && s[1..][k] == m;
      assert s[k + 1] == m;
    }
  }

  /** A node ranking before every node of a ranked list may go in front. */
  lemma ConsRanked(x: Node, s: seq<Node>)
    requires Ranked(s)
    requires forall m | m in s :: RanksBefore(x, m)
    ensures Ranked([x] + s)
  {
    var r := [x] + s;
    forall p, q | 0 <= p < q < |r|
      ensures RanksBefore(r[p], r[q])
    {
      assert r[q] == s[q - 1];
      if p > 0 {
        assert r[p] == s[p - 1];
      }
    }
  }

  lemma {:induction false} InsertRanked(n: Node, s: seq<Node>)
    requires Ranked(s)
    requires forall m | m in s :: PosBefore(n, m)
    ensures Ranked(Insert(n, s))
  {
    if s == [] || s[0].value <= n.value {
      if s != [] {
        RankedTail(s);
        assert forall m | m in s :: m.value <= n.value by {
          forall m | m in s
            ensures m.value <= n.value
          {
            if m != s[0] {
              assert m in s[1..] by {
                var k :| 0 <= k < |s| && s[k] == m;
                assert k > 0 && s[1..][k - 1] == m;
              }
            }
          }
        }
      }
      ConsRanked(n, s);
    } else {
      var rest := Insert(n, s[1..]);
      RankedTail(s);
      assert forall m | m in s[1..] :: PosBefore(n, m);
      InsertRanked(n, s[1..]);
      forall m | m in rest
        ensures RanksBefore(s[0], m)
      {
        assert m in multiset(rest);
        if m != n {
          assert m in multiset(s[1..]);
        }
      }
      ConsRanked(s[0], rest);
    }
  }

  /** Stability: sorting a row-major list ranks equal values in row-major order. */
  lemma {:induction false} SortRanked(s: seq<Node>)
    requires InRowMajorOrder(s)
    ensures Ranked(SortByValueDesc(s))
  {
    if s != [] {
      var tail := s[1..];
      assert InRowMajorOrder(tail) by {
        forall p, q | 0 <= p < q < |tail|
          ensures PosBefore(tail[p], tail[q])
        {
          assert tail[p] == s[p + 1] && tail[q] == s[q + 1];
        }
      }
      SortRanked(tail);
      var sorted := SortByValueDesc(tail);
      forall m | m in sorted
        ensures PosBefore(s[0], m)
      {
        assert m in multiset(sorted);
        var k :| 0 <= k < |tail| && tail[k] == m;
        assert s[k + 1] == m;
      }
      InsertRanked(s[0], sorted);
    }
  }

  /** The ranking of all pixels of a map: every pixel exactly once, by
      decreasing dark-channel value, equal values in row-major order. */
  function Ranking(g: Grid): (r: seq<Node>)
    requires IsImage(g)
    ensures |r| == |g| * Width(g)
    ensures forall p | 0 <= p < |r| :: IsPixelOf(r[p], g)
    ensures forall i, j | 0 <= i < |g| && 0 <= j < Width(g) :: Node(i, j, g[i][j]) in r
    ensures Ranked(r)
  {
    var ns := RowMajorNodes(g);
    RowMajorNodesEnumerate(g);
    SortRanked(ns);
    var r := SortByValueDesc(ns);
    PermutationKeepsPixels(ns, r, g);
    r
  }

  /** A permutation of a list of pixels of `g` holds the same pixels. */
  lemma PermutationKeepsPixels(ns: seq<Node>, r: seq<Node>, g: Grid)
    requires multiset(r) == multiset(ns)
    requires forall p | 0 <= p < |ns| :: IsPixelOf(ns[p], g)
    ensures |r| == |ns|
    ensures forall p | 0 <= p < |r| :: IsPixelOf(r[p], g)
    ensures forall n | n in ns :: n in r
  {
    assert |r| == |multiset(r)| == |multiset(ns)| == |ns|;
    forall p | 0 <= p < |r|
      ensures IsPixelOf(r[p], g)
    {
      assert r[p] in multiset(ns);
      var k :| 0 <= k < |ns| && ns[k] == r[p];
    }
    forall n | n in ns
      ensures n in r
    {
      assert n in multiset(r);
    }
  }

  // ---------------------------------------------------------------------
  // The number of candidates taken and the light they give
  // ---------------------------------------------------------------------

  /** Python's `int(x)` on a real: truncation toward zero. */
  function Trunc(x: real): (n: int)
    ensures 0.0 <= x ==> 0 <= n && n as real <= x < n as real + 1.0
    ensures x < 0.0 ==> n <= 0 && n as real - 1.0 < x <= n as real
  {
    if x >= 0.0 then x.Floor else -((-x).Floor)
  }

  /** `int(percent * size)`, computed exactly. Zero or less means no candidate. */
  function SelectionCount(percent: real, size: nat): int {
    Trunc(percent * size as real)
  }

  /** The number of iterations of `range(int(percent * size))`: never more
      than the pixel count when percent is at most 1. */
  function Taken(percent: real, size: nat): (n: nat)
    ensures percent <= 1.0 ==> n <= size
  {
    assert percent <= 1.0 ==> percent * size as real <= size as real by {
      if percent <= 1.0 {
        ProductNonNegative(1.0 - percent, size as real);
        assert size as real - percent * size as real == (1.0 - percent) * size as real;
      }
    }
    Max(0, SelectionCount(percent, size))
  }

  /** All nodes name pixels of `img`. */
  predicate InImage(img: Image, sel: seq<Node>) {
    forall p | 0 <= p < |sel| :: sel[p].x < |img| && sel[p].y < |img[sel[p].x]|
  }

  /** The largest of the first `j` samples of `p`, and of 0. */
  function ChannelMax(p: Pixel, j: nat): (m: Byte)
    requires j <= 3
    ensures forall c | 0 <= c < j :: p[c] <= m
    ensures j == 0 ==> m == 0
    ensures j > 0 ==> m in p[..j]
  {
    if j == 0 then 0
    else
      var prev := ChannelMax(p, j - 1);
      assert p[..j] == p[..j - 1] + [p[j - 1]];
      Max(prev, p[j - 1])
  }

  /** The light of a selection: the largest sample, over the three
      channels, of every selected pixel, starting from 0. */
  function SelectedLight(img: Image, sel: seq<Node>): (l: Byte)
    requires InImage(img, sel)
    ensures sel == [] ==> l == 0
    ensures forall p, c | 0 <= p < |sel| && 0 <= c < 3 :: img[sel[p].x][sel[p].y][c] <= l
    ensures sel != [] ==> exists p | 0 <= p < |sel| :: l in img[sel[p].x][sel[p].y]
  {
    if sel == [] then 0
    else
      var init := sel[..|sel| - 1];
      var last := sel[|sel| - 1];
      var px := img[last.x][last.y];
      assert forall p | 0 <= p < |init| :: init[p] == sel[p];
      var prev := SelectedLight(img, init);
      var here := ChannelMax(px, 3);
      assert px[..3] == px;
      assert here in img[sel[|sel| - 1].x][sel[|sel| - 1].y];
      Max(prev, here)
  }

  /** The first `k` pixels of the ranking of `g`. */
  function Selected(img: Image, g: Grid, k: nat): (sel: seq<Node>)
    requires IsImage(img) && IsGrid(g, |img|, Width(img))
    requires k <= |img| * Width(img)
    ensures |sel| == k && InImage(img, sel)
    ensures forall p | 0 <= p < k :: sel[p] == Ranking(g)[p]
  {
    var rk := Ranking(g);
    var sel := rk[..k];
    assert forall p | 0 <= p < k :: sel[p] == rk[p];
    assert InImage(img, sel) by {
      forall p | 0 <= p < k
        ensures sel[p].x < |img| && sel[p].y < |img[sel[p].x]|
      {
        assert IsPixelOf(rk[p], g);
      }
    }
    sel
  }

  /** The atmospheric light of `img` given its dark channel `g`, when the
      first `k` ranked pixels are taken. */
  function AtmosphericLightOf(img: Image, g: Grid, k: nat): (l: Byte)
    requires IsImage(img) && IsGrid(g, |img|, Width(img))
    requires k <= |img| * Width(img)
    ensures k == 0 ==> l == 0
    ensures forall p, c | 0 <= p < k && 0 <= c < 3 ::
      img[Selected(img, g, k)[p].x][Selected(img, g, k)[p].y][c] <= l
    ensures k > 0 ==> exists p | 0 <= p < k :: l in img[Selected(img, g, k)[p].x][Selected(img, g, k)[p].y]
  {
    SelectedLight(img, Selected(img, g, k))
  }

  /** Every channel of each of the first `k` ranked pixels is 0. */
  predicate SelectionIsBlack(img: Image, g: Grid, k: nat)
    requires IsImage(img) && IsGrid(g, |img|, Width(img))
    requires k <= |img| * Width(img)
  {
    var sel := Selected(img, g, k);
    forall p, c | 0 <= p < k && 0 <= c < 3 :: img[sel[p].x][sel[p].y][c] == 0
  }

  /** The light of a selection is 0 exactly when all its samples are 0. */
  lemma SelectedLightZeroIffBlack(img: Image, sel: seq<Node>)
    requires InImage(img, sel)
    ensures SelectedLight(img, sel) == 0 <==>
      forall p, c | 0 <= p < |sel| && 0 <= c < 3 :: img[sel[p].x][sel[p].y][c] == 0
  {
    var l := SelectedLight(img, sel);
    if sel != [] && forall p, c | 0 <= p < |sel| && 0 <= c < 3 :: img[sel[p].x][sel[p].y][c] == 0 {
      var p :| 0 <= p < |sel| && l in img[sel[p].x][sel[p].y];
      var px := img[sel[p].x][sel[p].y];
      assert px[0] == 0 && px[1] == 0 && px[2] == 0;
    }
  }

  /** The light is 0 exactly when every selected sample is 0 (in particular
      when no pixel is selected). */
  lemma LightZeroIffBlack(img: Image, g: Grid, k: nat)
    requires IsImage(img) && IsGrid(g, |img|, Width(img))
    requires k <= |img| * Width(img)
    ensures AtmosphericLightOf(img, g, k) == 0 <==> SelectionIsBlack(img, g, k)
  {
    SelectedLightZeroIffBlack(img, Selected(img, g, k));
  }

  // ---------------------------------------------------------------------
  // getAtomsphericLight as written
  // ---------------------------------------------------------------------

  /** The list comprehension of the source: one node per pixel of `dark`,
      row by row. */
  method CollectNodes(dark: array2<Byte>) returns (nodes: seq<Node>)
    ensures nodes == RowMajorNodes(GridOf(dark))
  {
    ghost var g := GridOf(dark);
    nodes := [];
    for i := 0 to dark.Length0
      invariant nodes == NodesUpTo(g, i)
    {
      for j := 0 to dark.Length1
        invariant nodes == NodesUpTo(g, i) + RowNodes(g, i, j)
      {
        nodes := nodes + [Node(i, j, dark[i, j])];
      }
    }
  }

  /** One more node raises the light to the largest of its channels, if larger. */
  lemma SelectedLightStep(img: Image, nodes: seq<Node>, i: nat)
    requires i < |nodes| && InImage(img, nodes)
    ensures SelectedLight(img, nodes[..i + 1]) ==
      Max(SelectedLight(img, nodes[..i]), ChannelMax(img[nodes[i].x][nodes[i].y], 3))
  {
    assert nodes[..i + 1][..i] == nodes[..i];
  }

  /** The accumulation loop of the source: the largest channel sample of the
      first `k` nodes, starting from 0. */
  method BrightestSample(img: Image, nodes: seq<Node>, k: nat) returns (light: Byte)
    requires k <= |nodes| && InImage(img, nodes)
    ensures light == SelectedLight(img, nodes[..k])
  {
    light := 0;
    for i := 0 to k
      invariant light == SelectedLight(img, nodes[..i])
    {
      var px := img[nodes[i].x][nodes[i].y];
      for j := 0 to 3
        invariant light == Max(SelectedLight(img, nodes[..i]), ChannelMax(px, j))
      {
        if px[j] > light {
          light := px[j];
        }
      }
      SelectedLightStep(img, nodes, i);
    }
  }

  method GetAtmosphericLight(dark: array2<Byte>, img: Image, percent: real) returns (light: Byte)
    requires IsImage(img) && dark.Length0 == |img| && dark.Length1 == Width(img)
    requires SelectionCount(percent, |img| * Width(img)) <= |img| * Width(img)
    ensures light == AtmosphericLightOf(img, GridOf(dark), Taken(percent, |img| * Width(img)))
  {
    var size := dark.Length0 * dark.Length1;
    var nodes := CollectNodes(dark);
    nodes := SortByValueDesc(nodes);
    assert nodes == Ranking(GridOf(dark));
    var count := SelectionCount(percent, size);
    var k: nat := if count < 0 then 0 else count;
    light := BrightestSample(img, nodes, k);
  }
}
