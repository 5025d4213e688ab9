/** The `DatasetLoader` of the lidar U-Net: paired lidar/image file names,
    a train/validation split, one wrap-around cursor per split, and the
    per-call production of aligned mask and image tiles.

    File system access and image decoding are parameters: the two directory
    listings are given to `New`, and `GetItems` receives the two decoders as
    functions from a file name to an optional raster.
 */
module DatasetLoader {
  import opened Results
  import opened Rasters
  import opened Tiling

  type Name = string

  /** The constructor's boolean options. `isAugment` selects the random
      augmentation, which this model leaves out; it is kept so that the
      configuration is complete. */
  datatype Config = Config(
    isTrain: bool,
    isAugment: bool,
    isLidarBinary: bool,
    isSliceImages: bool)

  /** The loader's state: the two splits and one cursor per split. */
  datatype Loader = Loader(
    cfg: Config,
    trainNames: seq<Name>,
    validNames: seq<Name>,
    trainIdx: nat,
    validIdx: nat)

  /** The split that `isTrain` selects. */
  function Active(s: Loader): seq<Name> {
    if s.cfg.isTrain then s.trainNames else s.validNames
  }

  /** `_get_idx`: the cursor of the active split. Under the cursor
      invariant it is 0 or a position of that split. */
  function GetIdx(s: Loader): (r: nat)
    ensures s.cfg.isTrain ==> r == s.trainIdx
    ensures !s.cfg.isTrain ==> r == s.validIdx
    ensures Valid(s) ==> r == 0 || r < GetLen(s)
  {
    if s.cfg.isTrain then s.trainIdx else s.validIdx
  }

  /** `get_len`: the number of names in the active split. */
  function GetLen(s: Loader): (r: nat)
    ensures s.cfg.isTrain ==> r == |s.trainNames|
    ensures !s.cfg.isTrain ==> r == |s.validNames|
  {
    |Active(s)|
  }

  /** Each cursor is either at its start or inside its split. A cursor of an
      empty split stays at 0, since advancing it fails. */
  predicate Valid(s: Loader) {
    (s.trainIdx == 0 || s.trainIdx < |s.trainNames|) &&
    (s.validIdx == 0 || s.validIdx < |s.validNames|)
  }

  /** `int(a / d)` for a positive divisor: the quotient truncated toward
      zero, which differs from Dafny's `/` for a negative dividend. */
  function TruncDiv(a: int, d: int): (q: int)
    requires d > 0
    ensures a >= 0 ==> 0 <= q * d <= a < (q + 1) * d
    ensures a < 0 ==> (q - 1) * d < a <= q * d <= 0
  {
    if a >= 0 then
      FloorDivBounds(a, d);
      a / d
    else
      FloorDivBounds(-a, d);
      -((-a) / d)
  }

  lemma FloorDivBounds(a: nat, d: int)
    requires d > 0
    ensures 0 <= (a / d) * d <= a < (a / d + 1) * d
  {
    var q, m := a / d, a % d;
    assert a == q * d + m && 0 <= m < d;
    assert (q + 1) * d == q * d + d;
  }

  /** A slice bound `t` of `names[:t]` and `names[t:]` normalised against a
      sequence of length `n`: a negative bound counts from the end, and a
      bound outside the sequence is clamped to it. */
  function SliceBound(t: int, n: nat): (c: nat)
    ensures c <= n
    ensures 0 <= t <= n ==> c == t
    ensures t > n ==> c == n
    ensures -(n as int) <= t < 0 ==> c == t + n
    ensures t < -(n as int) ==> c == 0
  {
    if t < 0 then (if t + n < 0 then 0 else t + n)
    else if t > n then n
    else t
  }

  /** The training length `int(ds_len * train_split)` for a split fraction
      given exactly as `num / den`, and the cut it makes in the listing. */
  function SplitPoint(n: nat, num: int, den: int): (c: nat)
    requires den > 0
    ensures c <= n
  {
    SliceBound(TruncDiv(n * num, den), n)
  }

  /** The constructor: the two listings must be equal as sequences, and the
      common listing is cut into a training prefix and a validation suffix.
      Both cursors start at 0. */
  function New(lidarNames: seq<Name>, imageNames: seq<Name>, num: int, den: int, cfg: Config)
    : (r: Result<Loader>)
    requires den > 0
    ensures r.Ok? <==> lidarNames == imageNames
    ensures r.Err? ==> r.error == Corrupted
    ensures r.Ok? ==>
      && r.value.cfg == cfg
      && r.value.trainNames + r.value.validNames == lidarNames
      && |r.value.trainNames| == SplitPoint(|lidarNames|, num, den)
      && r.value.trainIdx == 0 && r.value.validIdx == 0
      && Valid(r.value)
  {
    if lidarNames != imageNames then Err(Corrupted)
    else
      var cut := SplitPoint(|lidarNames|, num, den);
      assert lidarNames[..cut] + lidarNames[cut..] == lidarNames;
      Ok(Loader(cfg, lidarNames[..cut], lidarNames[cut..], 0, 0))
  }

  /** `_inc_idx`: advance the active cursor by one, wrapping at the split's
      length. An empty active split divides by zero, and nothing changes. */
  function IncIdx(s: Loader): (r: Result<Loader>)
    ensures r.Ok? <==> GetLen(s) > 0
    ensures r.Err? ==> r.error == EmptySplit
    ensures r.Ok? ==>
      && GetIdx(r.value) == (GetIdx(s) + 1) % GetLen(s)
      && GetIdx(r.value) < GetLen(r.value)
    ensures r.Ok? ==>
      && r.value.cfg == s.cfg
      && r.value.trainNames == s.trainNames
      && r.value.validNames == s.validNames
      && (if s.cfg.isTrain then r.value.validIdx == s.validIdx else r.value.trainIdx == s.trainIdx)
    ensures r.Ok? && Valid(s) ==> Valid(r.value)
  {
    if s.cfg.isTrain then
      if |s.trainNames| == 0 then Err(EmptySplit)
      else Ok(s.(trainIdx := (s.trainIdx + 1) % |s.trainNames|))
    else
      if |s.validNames| == 0 then Err(EmptySplit)
      else Ok(s.(validIdx := (s.validIdx + 1) % |s.validNames|))
  }

  /** The name `_load_lidar_and_image_by_idx` reads under the active cursor. */
  function SelectName(s: Loader): (r: Name)
    requires GetIdx(s) < GetLen(s)
    ensures r == Active(s)[GetIdx(s)]
    ensures s.cfg.isTrain ==> r in s.trainNames
    ensures !s.cfg.isTrain ==> r in s.validNames
  {
    if s.cfg.isTrain then s.trainNames[s.trainIdx] else s.validNames[s.validIdx]
  }

  /** One cursor step of `get_items`: the cursor read first is not used; the
      cursor is advanced, and the name is chosen under the advanced cursor. */
  datatype Step = Step(next: Loader, name: Name)

  function Advance(s: Loader): (r: Result<Step>)
    ensures r.Ok? <==> GetLen(s) > 0
    ensures r.Err? ==> r.error == EmptySplit
    ensures r.Ok? ==>
      && r.value.next == IncIdx(s).value
      && r.value.name == Active(s)[(GetIdx(s) + 1) % GetLen(s)]
  {
    match IncIdx(s)
    case Err(e) => Err(e)
    case Ok(t) => Ok(Step(t, SelectName(t)))
  }

  /** What one `get_items` call produces. `images` and `lidars` are the two
      returned lists, before normalisation; `name` and `rects` record the
      file loaded and the windows cut. */
  datatype Batch = Batch(
    name: Name,
    rects: seq<Rect>,
    images: seq<Image>,
    lidars: seq<Mask>)

  /** The loader after a call, and the call's outcome. */
  datatype Fetched = Fetched(next: Loader, batch: Result<Batch>)

  /** Both decoded rasters exist and have the shapes the loader asserts. */
  predicate Loadable(lidar: Option<Mask>, image: Option<Image>) {
    lidar.Some? && HasShape(lidar.value, Side, Side) &&
    image.Some? && HasShape(image.value, Side, Side)
  }

  /** The mask after the optional thresholding: with the binary-lidar
      option every pixel is 0 or 255 and zero exactly where the decoded
      mask is zero; without it the mask is untouched. */
  function Prepared(cfg: Config, m: Mask): (r: Mask)
    ensures HasShape(m, Side, Side) ==> HasShape(r, Side, Side)
    ensures !cfg.isLidarBinary ==> r == m
    ensures cfg.isLidarBinary ==>
      && |r| == |m|
      && (forall i :: 0 <= i < |r| ==> |r[i]| == |m[i]|)
      && (forall i, j :: 0 <= i < |r| && 0 <= j < |r[i]| ==>
            (r[i][j] == 0 <==> m[i][j] == 0) && (r[i][j] == 0 || r[i][j] == MaxIntensity))
  {
    if cfg.isLidarBinary then Binarize(m) else m
  }

  /** Cut both rasters of one file by the same windows. */
  function CutPair(cfg: Config, name: Name, mask: Mask, image: Image): (b: Batch)
    requires HasShape(mask, Side, Side) && HasShape(image, Side, Side)
    ensures b.name == name
    ensures b.rects == TileRects(cfg.isSliceImages)
    ensures |b.lidars| == |b.rects| && |b.images| == |b.rects|
    ensures forall k :: 0 <= k < |b.rects| ==>
      TileOf(b.lidars[k], mask, b.rects[k]) && TileOf(b.images[k], image, b.rects[k])
  {
    var rects := TileRects(cfg.isSliceImages);
    TilesFit(mask, cfg.isSliceImages);
    TilesFit(image, cfg.isSliceImages);
    Batch(name, rects, CutTiles(image, rects), CutTiles(mask, rects))
  }

  /** Every window of a call fits a raster of the accepted shape. */
  lemma TilesFit<T>(r: seq<seq<T>>, sliceImages: bool)
    requires HasShape(r, Side, Side)
    ensures forall k :: 0 <= k < |TileRects(sliceImages)| ==> Fits(r, TileRects(sliceImages)[k])
  {
    TilesWithinRaster(sliceImages);
  }

  /** Decode, check, threshold and tile the rasters of one file. */
  function LoadTiles(cfg: Config, name: Name, lidar: Option<Mask>, image: Option<Image>)
    : (r: Result<Batch>)
    ensures r.Ok? <==> Loadable(lidar, image)
    ensures lidar.None? ==> r == Err(ReadFailed)
    ensures lidar.Some? && !HasShape(lidar.value, Side, Side) ==> r == Err(BadShape)
    ensures lidar.Some? && HasShape(lidar.value, Side, Side) && image.None? ==>
      r == Err(ReadFailed)
    ensures (lidar.Some? && HasShape(lidar.value, Side, Side) &&
             image.Some? && !HasShape(image.value, Side, Side)) ==> r == Err(BadShape)
    ensures r.Err? ==> r.error == ReadFailed || r.error == BadShape
    ensures r.Ok? ==>
      var b := r.value;
      && b.name == name
      && b.rects == TileRects(cfg.isSliceImages)
      && |b.lidars| == |b.rects| && |b.images| == |b.rects|
      && (forall k :: 0 <= k < |b.rects| ==>
            TileOf(b.lidars[k], Prepared(cfg, lidar.value), b.rects[k]) &&
            TileOf(b.images[k], image.value, b.rects[k]))
  {
    if lidar.None? then Err(ReadFailed)
    else if !HasShape(lidar.value, Side, Side) then Err(BadShape)
    else if image.None? then Err(ReadFailed)
    else if !HasShape(image.value, Side, Side) then Err(BadShape)
    else Ok(CutPair(cfg, name, Prepared(cfg, lidar.value), image.value))
  }

  /** `get_items`. The cursor moves before the files are read, so a failed
      read still consumes the name; an empty active split fails before
      anything changes. */
  function GetItems(s: Loader, readLidar: Name -> Option<Mask>, readImage: Name -> Option<Image>)
    : (f: Fetched)
    ensures GetLen(s) == 0 ==> f == Fetched(s, Err(EmptySplit))
    ensures GetLen(s) > 0 ==>
      var n := Active(s)[(GetIdx(s) + 1) % GetLen(s)];
      && f.next == IncIdx(s).value
      && (f.batch.Ok? <==> Loadable(readLidar(n), readImage(n)))
      && (f.batch.Ok? ==> f.batch.value.name == n)
      && (readLidar(n).None? ==> f.batch == Err(ReadFailed))
      && (readLidar(n).Some? && !HasShape(readLidar(n).value, Side, Side) ==>
            f.batch == Err(BadShape))
      && ((readLidar(n).Some? && HasShape(readLidar(n).value, Side, Side) &&
           readImage(n).None?) ==> f.batch == Err(ReadFailed))
      && ((readLidar(n).Some? && HasShape(readLidar(n).value, Side, Side) &&
           readImage(n).Some? && !HasShape(readImage(n).value, Side, Side)) ==>
            f.batch == Err(BadShape))
    ensures f.batch.Ok? ==>
      var b := f.batch.value;
      && b.rects == TileRects(s.cfg.isSliceImages)
      && |b.lidars| == |b.images| == |b.rects|
      && (forall k :: 0 <= k < |b.rects| ==>
            TileOf(b.lidars[k], Prepared(s.cfg, readLidar(b.name).value), b.rects[k]) &&
            TileOf(b.images[k], readImage(b.name).value, b.rects[k]))
  {
    match Advance(s)
    case Err(e) => Fetched(s, Err(e))
    case Ok(st) => Fetched(st.next, LoadTiles(s.cfg, st.name, readLidar(st.name), readImage(st.name)))
  }

  /** For a fraction `num / den` in [0, 1] the training split is the first
      `floor(N * num / den)` names, the validation split the remaining
      ones, and both cursors start at 0. */
  lemma SplitLengths(names: seq<Name>, num: int, den: int, cfg: Config)
    requires 0 <= num <= den && den > 0
    ensures New(names, names, num, den, cfg).Ok?
    ensures var s := New(names, names, num, den, cfg).value;
      var t := (|names| * num) / den;
      && t <= |names|
      && s.trainNames == names[..t]
      && s.validNames == names[t..]
      && |s.validNames| == |names| - t
      && s.trainIdx == 0 && s.validIdx == 0
  {
    var t := FractionCut(|names|, num, den);
    var s := New(names, names, num, den, cfg).value;
    assert s.trainNames + s.validNames == names;
    assert s.trainNames == names[..t];
  }

  /** `get_len` after construction: `floor(N * num / den)` on the training
      split, `N - floor(N * num / den)` on the validation split. */
  lemma ActiveLength(names: seq<Name>, num: int, den: int, cfg: Config)
    requires 0 <= num <= den && den > 0
    ensures New(names, names, num, den, cfg).Ok?
    ensures var t := (|names| * num) / den;
      GetLen(New(names, names, num, den, cfg).value) ==
        (if cfg.isTrain then t else |names| - t)
  {
    SplitLengths(names, num, den, cfg);
  }

  /** For a fraction in [0, 1] the cut is the floor of `n * num / den`. */
  lemma FractionCut(n: nat, num: int, den: int) returns (t: nat)
    requires 0 <= num <= den && den > 0
    ensures t == (n * num) / den && t <= n
    ensures SplitPoint(n, num, den) == t
  {
    var p := n * num;
    assert 0 <= p <= n * den by {
      MulNonNegative(n, num);
      MulNonNegative(n, den - num);
      assert n * den - p == n * (den - num);
    }
    DivMonotone(p, n * den, den);
    DivExact(n, den);
    t := p / den;
    assert TruncDiv(p, den) == t;
  }

  lemma MulNonNegative(x: nat, y: nat)
    ensures x * y >= 0
  {
  }

  lemma DivExact(n: nat, d: int)
    requires d > 0
    ensures (n * d) / d == n
  {
    var m := n * d;
    MulNonNegative(n, d);
    FloorDivBounds(m, d);
    assert m == n * d;
    MulCancel(m / d, n + 1, d);
    MulCancel(n - 1, m / d, d);
  }

  lemma DivMonotone(a: nat, b: nat, d: int)
    requires a <= b && d > 0
    ensures a / d <= b / d
  {
    FloorDivBounds(a, d);
    FloorDivBounds(b, d);
    MulCancel(a / d, b / d + 1, d);
  }

  lemma MulCancel(x: int, y: int, d: int)
    requires d > 0 && x * d < y * d
    ensures x < y
  {
    assert (y - x) * d == y * d - x * d;
  }

  /** An illustration of `New`'s equality test: the listings are compared
      as sequences, so two listings holding the same names in a different
      order are rejected as a corrupted dataset, and such listings exist. */
  lemma ListingOrderMatters(lidarNames: seq<Name>, imageNames: seq<Name>, num: int, den: int, cfg: Config)
    requires den > 0
    requires multiset(lidarNames) == multiset(imageNames) && lidarNames != imageNames
    ensures New(lidarNames, imageNames, num, den, cfg) == Err(Corrupted)
    ensures New(["a", "b"], ["b", "a"], num, den, cfg) == Err(Corrupted)
    ensures multiset(["a", "b"]) == multiset(["b", "a"])
  {
    assert ["a", "b"][0] != ["b", "a"][0];
  }
}
