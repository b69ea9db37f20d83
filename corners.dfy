/** Corner reinforcement: the hand-written local-maximum search over the
    normalised corner-response map (values already truncated to `int`).

    The window offsets run over `[-r, r)` in both directions, and each window
    coordinate is clamped with `min(max(v, 0), n)` where `n` is the number of
    rows (or columns) itself, one past the last valid index. So the search
    can sample row `rows` and column `cols`. The grid is therefore an
    `array2` with one extra row and one extra column: the scanned pixels are
    `[0, rows) x [0, cols)`. The map is one continuous row-major buffer, so
    the extra column's cell `(x, cols)` is the map pixel `(x + 1, 0)` for
    every `x < rows - 1` (`RowMajorWrap`); only the extra row and the cell
    `(rows - 1, cols)` lie past the end of the buffer, and their contents are
    whatever the caller puts there. Drawing a disc is abstracted to recording
    the pixel. */
module Corners {

  import opened Arguments

  /** A scanned pixel: `row` is the source's `i`, `col` its `j`; the disc is
      drawn at the point `(x, y) = (col, row)`. */
  datatype Pixel = Pixel(row: int, col: int)

  /** `min(max(v, 0), n)`. */
  function Clamp(v: int, n: int): (c: int)
    requires n >= 0
    ensures 0 <= c <= n
    ensures 0 <= v <= n ==> c == v
    ensures v < 0 ==> c == 0
    ensures v > n ==> c == n
  {
    var lo := if v > 0 then v else 0;
    if lo < n then lo else n
  }

  /** The grid carries one row and one column beyond the scanned map. */
  predicate Padded(g: array2<int>)
  {
    g.Length0 >= 1 && g.Length1 >= 1
  }

  function Rows(g: array2<int>): int requires Padded(g) { g.Length0 - 1 }
  function Cols(g: array2<int>): int requires Padded(g) { g.Length1 - 1 }

  predicate InMap(g: array2<int>, i: int, j: int)
    requires Padded(g)
  {
    0 <= i < Rows(g) && 0 <= j < Cols(g)
  }

  /** The layout of the continuous map buffer: one past the last column of
      a row is the first pixel of the next row. */
  ghost predicate RowMajorWrap(g: array2<int>)
    reads g
    requires Padded(g)
  {
    forall x :: 0 <= x < Rows(g) - 1 ==> g[x, Cols(g)] == g[x + 1, 0]
  }

  /** The value read at window offset `(k, l)` around `(i, j)`. */
  function Sample(g: array2<int>, i: int, j: int, k: int, l: int): int
    reads g
    requires Padded(g)
  {
    g[Clamp(i + k, Rows(g)), Clamp(j + l, Cols(g))]
  }

  /** No sampled cell of the `[-r, r) x [-r, r)` window exceeds `v`. */
  ghost predicate WindowAtMost(g: array2<int>, i: int, j: int, r: int, v: int)
    reads g
    requires Padded(g)
  {
    forall k, l :: -r <= k < r && -r <= l < r ==> Sample(g, i, j, k, l) <= v
  }

  /** A pixel gets a disc iff its response is above the threshold and no
      sampled window cell is strictly larger (ties mark). */
  ghost predicate IsMarked(g: array2<int>, i: int, j: int, thresh: int, r: int)
    reads g
    requires Padded(g) && InMap(g, i, j)
  {
    g[i, j] > thresh && WindowAtMost(g, i, j, r, g[i, j])
  }

  /** Row-major scan order, strictly. */
  predicate Before(p: Pixel, q: Pixel)
  {
    p.row < q.row || (p.row == q.row && p.col < q.col)
  }

  predicate ScanOrdered(ps: seq<Pixel>)
  {
    forall a, b :: 0 <= a < b < |ps| ==> Before(ps[a], ps[b])
  }

  /** The two inner loops: run `search_max` from the pixel's own value over
      the clamped window and report whether it never grew. */
  method LocalMaximum(g: array2<int>, i: int, j: int, r: int) returns (isMax: bool)
    requires Padded(g) && InMap(g, i, j)
    ensures isMax <==> WindowAtMost(g, i, j, r, g[i, j])
  {
    var holdMax := g[i, j];
    var searchMax := g[i, j];
    var k := -r;
    while k < r
      invariant -r <= k && (k <= r || k == -r)
      invariant searchMax >= holdMax
      invariant searchMax == holdMax <==>
        forall k', l' :: -r <= k' < k && -r <= l' < r ==> Sample(g, i, j, k', l') <= holdMax
    {
      var l := -r;
      while l < r
        invariant -r <= l <= r
        invariant searchMax >= holdMax
        invariant searchMax == holdMax <==>
          forall k', l' :: -r <= k' && -r <= l' < r && (k' < k || (k' == k && l' < l)) ==>
            Sample(g, i, j, k', l') <= holdMax
      {
        var xx := Clamp(i + k, Rows(g));
        var yy := Clamp(j + l, Cols(g));
        assert g[xx, yy] == Sample(g, i, j, k, l);
        if g[xx, yy] > searchMax {
          searchMax := g[xx, yy];
        }
        l := l + 1;
      }
      k := k + 1;
    }
    isMax := searchMax == holdMax;
  }

  /** The reinforcement pass over every pixel of the map: the pixels that
      get a disc, in the order the discs are drawn. */
  method Reinforce(g: array2<int>, thresh: int, r: int) returns (marks: seq<Pixel>)
    requires Padded(g)
    ensures forall p :: p in marks <==> InMap(g, p.row, p.col) && IsMarked(g, p.row, p.col, thresh, r)
    ensures ScanOrdered(marks)
  {
    marks := [];
    var i := 0;
    while i < Rows(g)
      invariant 0 <= i <= Rows(g)
      invariant forall p :: p in marks <==> InMap(g, p.row, p.col) && p.row < i && IsMarked(g, p.row, p.col, thresh, r)
      invariant ScanOrdered(marks)
      invariant forall p :: p in marks ==> p.row < i
    {
      var j := 0;
      while j < Cols(g)
        invariant 0 <= j <= Cols(g)
        invariant forall p :: p in marks <==>
          InMap(g, p.row, p.col) && (p.row < i || (p.row == i && p.col < j)) && IsMarked(g, p.row, p.col, thresh, r)
        invariant ScanOrdered(marks)
        invariant forall p :: p in marks ==> Before(p, Pixel(i, j))
      {
        if g[i, j] > thresh {
          var isMax := LocalMaximum(g, i, j, r);
          if isMax {
            marks := marks + [Pixel(i, j)];
          }
        }
        j := j + 1;
      }
      i := i + 1;
    }
  }

  /** Two marked pixels that lie strictly inside each other's window carry
      the same response. */
  lemma NearbyMarksTie(g: array2<int>, p: Pixel, q: Pixel, thresh: int, r: int)
    requires Padded(g) && InMap(g, p.row, p.col) && InMap(g, q.row, q.col)
    requires IsMarked(g, p.row, p.col, thresh, r) && IsMarked(g, q.row, q.col, thresh, r)
    requires -r < q.row - p.row < r && -r < q.col - p.col < r
    ensures g[p.row, p.col] == g[q.row, q.col]
  {
    assert Sample(g, p.row, p.col, q.row - p.row, q.col - p.col) == g[q.row, q.col];
    assert Sample(g, q.row, q.col, p.row - q.row, p.col - q.col) == g[p.row, p.col];
  }

  /** A pixel above the threshold whose response is at least every value in
      the grid, padding included, is always marked. */
  lemma GridMaximumIsMarked(g: array2<int>, i: int, j: int, thresh: int, r: int)
    requires Padded(g) && InMap(g, i, j) && g[i, j] > thresh
    requires forall x, y :: 0 <= x < g.Length0 && 0 <= y < g.Length1 ==> g[x, y] <= g[i, j]
    ensures IsMarked(g, i, j, thresh, r)
  {
    forall k, l | -r <= k < r && -r <= l < r
      ensures Sample(g, i, j, k, l) <= g[i, j]
    {
      var x, y := Clamp(i + k, Rows(g)), Clamp(j + l, Cols(g));
      assert g[x, y] <= g[i, j];
    }
  }

  /** The clamp reaches one past the last row: with a radius of at least 2
      (offset 1 is in the window), a pixel on the last map row is marked only
      if it is at least the padding cell just below it. */
  lemma LastRowReadsPastEnd(g: array2<int>, j: int, thresh: int, r: int)
    requires Padded(g) && Rows(g) >= 1 && 0 <= j < Cols(g) && r >= 2
    requires IsMarked(g, Rows(g) - 1, j, thresh, r)
    ensures g[Rows(g), j] <= g[Rows(g) - 1, j]
  {
    assert Sample(g, Rows(g) - 1, j, 1, 0) == g[Rows(g), j];
  }

  /** The clamp reaches one past the last column, which in the continuous
      buffer is the first pixel of the next row: with a radius of at least 2,
      a pixel on the last map column above the last row is marked only if it
      is at least the first pixel of the row below. */
  lemma RightEdgeReadsNextRow(g: array2<int>, i: int, thresh: int, r: int)
    requires Padded(g) && RowMajorWrap(g) && Cols(g) >= 1 && 0 <= i < Rows(g) - 1 && r >= 2
    requires IsMarked(g, i, Cols(g) - 1, thresh, r)
    ensures g[i + 1, 0] <= g[i, Cols(g) - 1]
  {
    assert Sample(g, i, Cols(g) - 1, 0, 1) == g[i, Cols(g)];
  }

  /** The reinforcement pass with the tool's radius 60 and threshold 80, on
      a map laid out as the tool's continuous buffer. */
  method ReinforceMap(g: array2<int>) returns (marks: seq<Pixel>)
    requires Padded(g) && RowMajorWrap(g)
    ensures forall p :: p in marks <==> InMap(g, p.row, p.col) && IsMarked(g, p.row, p.col, Thresh, SearchRadius)
    ensures ScanOrdered(marks)
    ensures forall p :: p in marks && 0 <= p.row < Rows(g) - 1 && 0 <= p.col == Cols(g) - 1 ==> g[p.row + 1, 0] <= g[p.row, p.col]
  {
    marks := Reinforce(g, Thresh, SearchRadius);
    forall p | p in marks && 0 <= p.row < Rows(g) - 1 && 0 <= p.col == Cols(g) - 1
      ensures g[p.row + 1, 0] <= g[p.row, p.col]
    {
      RightEdgeReadsNextRow(g, p.row, Thresh, SearchRadius);
    }
  }
}
