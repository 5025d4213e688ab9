/** Rasters as the loader sees them after decoding: a single-channel lidar
    mask and a three-channel colour image, both addressed row-major as
    `raster[row][column]`, with 8-bit unsigned samples.
 */
module Rasters {

  /** An 8-bit unsigned sample, the element type of a decoded raster. */
  newtype byte = x: int | 0 <= x < 256

  /** The largest sample value, written into every non-zero mask pixel. */
  const MaxIntensity: byte := 255

  /** A colour pixel in the codec's blue, green, red channel order. */
  datatype Bgr = Bgr(b: byte, g: byte, r: byte)

  /** A single-channel lidar mask. */
  type Mask = seq<seq<byte>>

  /** A three-channel colour image. */
  type Image = seq<seq<Bgr>>

  /** The raster has `h` rows of `w` pixels each. */
  predicate HasShape<T>(r: seq<seq<T>>, h: nat, w: nat) {
    |r| == h && forall i :: 0 <= i < |r| ==> |r[i]| == w
  }

  /** One mask pixel after thresholding: any positive value becomes the
      maximum intensity, zero stays zero. */
  function Threshold(v: byte): byte {
    if v > 0 then MaxIntensity else v
  }

  /** The in-place thresholding of the mask under the binary-lidar option,
      applied to every pixel. */
  function Binarize(m: Mask): (r: Mask)
    ensures |r| == |m|
    ensures forall i :: 0 <= i < |r| ==> |r[i]| == |m[i]|
    ensures forall i, j :: 0 <= i < |r| && 0 <= j < |r[i]| ==>
      (r[i][j] == 0 <==> m[i][j] == 0)
    ensures forall i, j :: 0 <= i < |r| && 0 <= j < |r[i]| ==>
      r[i][j] == 0 || r[i][j] == MaxIntensity
  {
    seq(|m|, i requires 0 <= i < |m| =>
      seq(|m[i]|, j requires 0 <= j < |m[i]| => Threshold(m[i][j])))
  }

  /** Thresholding twice is thresholding once. */
  lemma BinarizeIdempotent(m: Mask)
    ensures Binarize(Binarize(m)) == Binarize(m)
  {
    var b := Binarize(m);
    var bb := Binarize(b);
    assert |bb| == |b|;
    forall i | 0 <= i < |b|
      ensures bb[i] == b[i]
    {
      assert |bb[i]| == |b[i]|;
      forall j | 0 <= j < |b[i]|
        ensures bb[i][j] == b[i][j]
      {
        assert b[i][j] == 0 || b[i][j] == MaxIntensity;
      }
    }
  }

  /** A mask that is already binary passes through thresholding unchanged. */
  lemma BinarizeFixesBinaryMasks(m: Mask)
    requires forall i, j :: 0 <= i < |m| && 0 <= j < |m[i]| ==>
      m[i][j] == 0 || m[i][j] == MaxIntensity
    ensures Binarize(m) == m
  {
    var b := Binarize(m);
    forall i | 0 <= i < |m|
      ensures b[i] == m[i]
    {
      assert |b[i]| == |m[i]|;
      forall j | 0 <= j < |m[i]|
        ensures b[i][j] == m[i][j]
      {
        assert m[i][j] == 0 || m[i][j] == MaxIntensity;
      }
    }
  }

  /** The half-open window of rows `[top, bottom)` and columns
      `[left, right)`. */
  datatype Rect = Rect(top: nat, bottom: nat, left: nat, right: nat) {

    predicate Contains(y: int, x: int) {
      top <= y < bottom && left <= x < right
    }

    /** The window is well formed and lies within an `h` by `w` raster. */
    predicate Within(h: nat, w: nat) {
      top <= bottom <= h && left <= right <= w
    }

    function Height(): nat
      requires top <= bottom
    {
      bottom - top
    }

    function Width(): nat
      requires left <= right
    {
      right - left
    }
  }

  /** Every row the window spans is wide enough for it. */
  predicate Fits<T>(r: seq<seq<T>>, w: Rect) {
    w.top <= w.bottom <= |r| && w.left <= w.right &&
    forall i :: w.top <= i < w.bottom ==> w.right <= |r[i]|
  }

  /** The two-axis slice `r[top:bottom, left:right]`: pixel `(i, j)` of the
      result is pixel `(top + i, left + j)` of the raster. */
  function Crop<T>(r: seq<seq<T>>, w: Rect): (c: seq<seq<T>>)
    requires Fits(r, w)
    ensures HasShape(c, w.Height(), w.Width())
    ensures forall i, j :: 0 <= i < |c| && 0 <= j < |c[i]| ==>
      c[i][j] == r[w.top + i][w.left + j]
  {
    seq(w.bottom - w.top, i requires 0 <= i < w.bottom - w.top =>
      r[w.top + i][w.left..w.right])
  }

  /** `tile` is the window `w` of `r`: same shape as the window, and pixel
      `(i, j)` of the tile is pixel `(top + i, left + j)` of the raster. */
  ghost predicate TileOf<T>(tile: seq<seq<T>>, r: seq<seq<T>>, w: Rect) {
    Fits(r, w) && HasShape(tile, w.bottom - w.top, w.right - w.left) &&
    forall i, j :: 0 <= i < |tile| && 0 <= j < |tile[i]| ==>
      tile[i][j] == r[w.top + i][w.left + j]
  }

  /** The list of slices of one raster, one per window, in window order. */
  function CutTiles<T>(r: seq<seq<T>>, ws: seq<Rect>): (ts: seq<seq<seq<T>>>)
    requires forall k :: 0 <= k < |ws| ==> Fits(r, ws[k])
    ensures |ts| == |ws|
    ensures forall k :: 0 <= k < |ts| ==> TileOf(ts[k], r, ws[k])
  {
    seq(|ws|, k requires 0 <= k < |ws| => Crop(r, ws[k]))
  }
}
