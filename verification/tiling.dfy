/** The windows `get_items` cuts out of a loaded raster pair.

    With slicing on, a 6 x 6 grid of 496-pixel squares is visited row by
    row (outer loop over grid rows `i`, inner loop over grid columns `j`);
    with slicing off, the single top-left square of side 6 * 496 = 2976.
    The same windows are applied to the mask and to the image.
 */
module Tiling {
  import opened Rasters

  /** Side of one tile, the `DIM` of the loader. */
  const Dim: nat := 496

  /** Tiles per grid row and per grid column. */
  const Grid: nat := 6

  /** Side of the region the grid covers: `DIM * 6`. */
  const Span: nat := Dim * Grid

  /** Side of every raster the loader accepts. */
  const Side: nat := 3000

  /** The window `[DIM*i : DIM*(i+1), DIM*j : DIM*(j+1)]`. */
  function Cell(i: nat, j: nat): Rect {
    Rect(Dim * i, Dim * (i + 1), Dim * j, Dim * (j + 1))
  }

  /** The windows the inner loop appends for grid row `i`, from column `j`
      to the end of the row. */
  function RowCells(i: nat, j: nat): (r: seq<Rect>)
    requires j <= Grid
    ensures |r| == Grid - j
    ensures forall t :: 0 <= t < |r| ==> r[t] == Cell(i, j + t)
    decreases Grid - j
  {
    if j == Grid then [] else [Cell(i, j)] + RowCells(i, j + 1)
  }

  /** The windows the two nested loops append from grid row `i` onwards. */
  function GridCells(i: nat): (r: seq<Rect>)
    requires i <= Grid
    ensures |r| == Grid * (Grid - i)
    ensures forall k :: 0 <= k < |r| ==> r[k] == Cell(i + k / Grid, k % Grid)
    decreases Grid - i
  {
    if i == Grid then []
    else
      var row := RowCells(i, 0);
      var rest := GridCells(i + 1);
      GridStep(i, row, rest);
      row + rest
  }

  /** Appending grid row `i` in front of the later rows keeps tile `k` at
      grid row `i + k / 6`, grid column `k % 6`. */
  lemma GridStep(i: nat, row: seq<Rect>, rest: seq<Rect>)
    requires i < Grid
    requires |row| == Grid && forall t :: 0 <= t < Grid ==> row[t] == Cell(i, t)
    requires forall k :: 0 <= k < |rest| ==> rest[k] == Cell(i + 1 + k / Grid, k % Grid)
    ensures forall k :: 0 <= k < |row + rest| ==>
      (row + rest)[k] == Cell(i + k / Grid, k % Grid)
  {
    forall k | 0 <= k < |row + rest|
      ensures (row + rest)[k] == Cell(i + k / Grid, k % Grid)
    {
      if k >= Grid {
        GridIndex(k / Grid - 1, k % Grid);
        assert rest[k - Grid] == Cell(i + 1 + (k - Grid) / Grid, (k - Grid) % Grid);
      }
    }
  }

  /** The windows of one call of `get_items`, in the order the tiles are
      appended to both output lists. */
  function TileRects(sliceImages: bool): (r: seq<Rect>)
    ensures sliceImages ==> |r| == Grid * Grid
    ensures !sliceImages ==> r == [Rect(0, Span, 0, Span)]
  {
    if sliceImages then GridCells(0) else [Rect(0, Span, 0, Span)]
  }

  /** Tile `k` of the grid sits at grid row `k / 6`, grid column `k % 6`. */
  lemma TileGeometry(k: nat)
    requires k < Grid * Grid
    ensures TileRects(true)[k] ==
      Rect(Dim * (k / Grid), Dim * (k / Grid + 1), Dim * (k % Grid), Dim * (k % Grid + 1))
  {
  }

  /** Every window lies within a 3000 x 3000 raster and has the side the
      loader promises: 496 when slicing, 2976 otherwise. */
  lemma TilesWithinRaster(sliceImages: bool)
    ensures forall k :: 0 <= k < |TileRects(sliceImages)| ==>
      TileRects(sliceImages)[k].Within(Side, Side)
    ensures forall k :: 0 <= k < |TileRects(sliceImages)| ==>
      TileRects(sliceImages)[k].Height() == (if sliceImages then Dim else Span) &&
      TileRects(sliceImages)[k].Width() == (if sliceImages then Dim else Span)
  {
    var r := TileRects(sliceImages);
    forall k | 0 <= k < |r|
      ensures r[k].Within(Side, Side)
      ensures r[k].Height() == (if sliceImages then Dim else Span)
      ensures r[k].Width() == (if sliceImages then Dim else Span)
    {
      if sliceImages {
        CellBounds(k / Grid, k % Grid);
      }
    }
  }

  lemma CellBounds(i: nat, j: nat)
    requires i < Grid && j < Grid
    ensures Cell(i, j).Within(Span, Span)
    ensures Cell(i, j).Height() == Dim && Cell(i, j).Width() == Dim
  {
  }

  /** A point of a grid cell determines the cell: its row is `y / 496`
      and its column `x / 496`. */
  lemma CellOfPoint(i: nat, j: nat, y: int, x: int)
    requires Cell(i, j).Contains(y, x)
    ensures i == y / Dim && j == x / Dim
  {
  }

  /** Distinct tiles share no pixel. */
  lemma TilesDisjoint(sliceImages: bool, k1: nat, k2: nat, y: int, x: int)
    requires k1 < |TileRects(sliceImages)| && k2 < |TileRects(sliceImages)|
    requires TileRects(sliceImages)[k1].Contains(y, x)
    requires TileRects(sliceImages)[k2].Contains(y, x)
    ensures k1 == k2
  {
    if sliceImages {
      CellOfPoint(k1 / Grid, k1 % Grid, y, x);
      CellOfPoint(k2 / Grid, k2 % Grid, y, x);
    }
  }

  /** Together the tiles cover exactly the top-left 2976 x 2976 square;
      the rest of the 3000 x 3000 raster is discarded. */
  lemma TilesCover(sliceImages: bool, y: int, x: int)
    ensures (exists k :: 0 <= k < |TileRects(sliceImages)| && TileRects(sliceImages)[k].Contains(y, x))
      <==> (0 <= y < Span && 0 <= x < Span)
  {
    var r := TileRects(sliceImages);
    if 0 <= y < Span && 0 <= x < Span {
      var k := PointTile(sliceImages, y, x);
    }
    if exists k :: 0 <= k < |r| && r[k].Contains(y, x) {
      var k :| 0 <= k < |r| && r[k].Contains(y, x);
      if sliceImages {
        CellBounds(k / Grid, k % Grid);
      }
    }
  }

  /** The tile holding a point of the covered square. */
  lemma PointTile(sliceImages: bool, y: int, x: int) returns (k: nat)
    requires 0 <= y < Span && 0 <= x < Span
    ensures k < |TileRects(sliceImages)| && TileRects(sliceImages)[k].Contains(y, x)
  {
    if sliceImages {
      var a, b := y / Dim, x / Dim;
      assert a < Grid && b < Grid;
      k := Grid * a + b;
      GridIndex(a, b);
      assert TileRects(true)[k] == Cell(a, b);
    } else {
      k := 0;
    }
  }

  lemma GridIndex(a: nat, b: nat)
    requires b < Grid
    ensures (Grid * a + b) / Grid == a && (Grid * a + b) % Grid == b
  {
  }
}
