# Lidar/image dataset loader — a verified model

This project models `DatasetLoader`, the sampler the lidar U-Net trains
from. The loader pairs a lidar mask and a colour image under one file name.
It cuts the file list into a training prefix and a validation suffix, and
keeps one wrap-around cursor per split. On every `get_items` call it
advances the active cursor, loads the pair under it, optionally thresholds
the mask to {0, 255}, and cuts both rasters into the same windows: a 6 x 6
grid of 496-pixel tiles, or one 2976-pixel square.

Modules:

- `Results`: the failure values (`Corrupted`, `EmptySplit`, `ReadFailed`,
  `BadShape`) and the `Result` and `Option` types.
- `Rasters`: 8-bit rasters as `seq<seq<_>>`, mask thresholding, and
  two-axis slicing by a half-open window.
- `Tiling`: the windows the tiling loops produce, with lemmas on their
  bounds, disjointness and coverage.
- `DatasetLoader`: construction, the cursor step, and `get_items` as a
  transition from a loader to the next loader plus the batch.
- `Cycle`: the order in which repeated calls visit a split.

The file system and the image codec are parameters. `New` takes the two
directory listings. `GetItems` takes the two decoders as functions from a
file name to an optional raster, where `None` is a file the codec cannot
decode.

Notes on what the code does, and the model with it:

- The two listings are compared as sequences. The same names in another
  order are therefore rejected as corrupted (`ListingOrderMatters`).
- `get_items` advances the cursor before it reads the name. The cursor
  value it reads first (`idx`) is never used. A fresh loader's first call
  therefore loads position `1 mod len`, which is position 1 unless the split
  holds a single name. `len` consecutive calls still visit every position
  once, in rotated order.
- The directories are `lidar` and `image`. The result pair is returned as
  images first, then lidars (the `Batch` fields `images` and `lidars`).
- The cursor advances before the files are read. A call whose read or
  shape check fails has therefore still moved the cursor. A call on an
  empty active split fails before anything changes.

The split fraction is taken exactly, as `num / den` with `den > 0`.
`int(...)` truncates toward zero, and the cut goes through Python's
slice-bound rules: a negative cut counts from the end, and a cut beyond the
list is clamped.

## Model

| member | source | states |
|---|---|---|
| `DatasetLoader.New` | unet_lidar/dataset_loader.py:52-69 | Construction succeeds exactly when the two listings are equal as sequences, and otherwise fails with `Corrupted`. On success the training and validation names concatenate back to the listing, the training length is the split point, both cursors are 0, and the cursor invariant holds. |
| `DatasetLoader.ListingOrderMatters` | unet_lidar/dataset_loader.py:52-55 | Any two listings with the same names (equal multisets) in a different order are rejected as corrupted, and such listings exist (`[a, b]` against `[b, a]`). This illustrates `New`'s sequence comparison. |
| `DatasetLoader.GetIdx` | unet_lidar/dataset_loader.py:77-78 | `_get_idx` is the training cursor when `is_train` is set and the validation cursor otherwise. Under the cursor invariant it is 0 or a position of the active split. |
| `DatasetLoader.GetLen` | unet_lidar/dataset_loader.py:130-131 | `get_len` is the number of training names when `is_train` is set and the number of validation names otherwise. |
| `DatasetLoader.TruncDiv` | unet_lidar/dataset_loader.py:60 | `int()` of the exact quotient truncates toward zero: for a non-negative dividend `q*d <= a < (q+1)*d`, and for a negative one `(q-1)*d < a <= q*d <= 0`. |
| `DatasetLoader.SliceBound` | unet_lidar/dataset_loader.py:61-62 | A slice bound normalised against a list of length `n` lies in `[0, n]`. An in-range bound is kept and a bound past the end becomes `n`. A bound in `[-n, 0)` counts from the end (`t + n`), and a bound below `-n` becomes 0. |
| `DatasetLoader.SplitPoint` | unet_lidar/dataset_loader.py:60-62 | The cut `int(N * train_split)`, after slice normalisation, never exceeds the list length. |
| `DatasetLoader.SplitLengths` | unet_lidar/dataset_loader.py:57-69 | For a fraction in [0, 1] the training split is exactly the first `floor(N*num/den)` names and the validation split is the rest, of length `N - floor(N*num/den)`. Both cursors start at 0. |
| `DatasetLoader.ActiveLength` | unet_lidar/dataset_loader.py:130-131 | After construction, `get_len` is the training length when `is_train` is set and the validation length otherwise. |
| `DatasetLoader.IncIdx` | unet_lidar/dataset_loader.py:71-75 | Advancing fails with `EmptySplit` exactly when the active split is empty. Otherwise the active cursor becomes `(cursor + 1) mod len` and lies in `[0, len)`. The other cursor, the splits and the options are unchanged, and the cursor invariant is preserved. |
| `DatasetLoader.SelectName` | unet_lidar/dataset_loader.py:80-84 | The name read is the active split's name under the active cursor, taken from the training names when `is_train` is set and from the validation names otherwise. |
| `DatasetLoader.Advance` | unet_lidar/dataset_loader.py:133-137 | The cursor part of a call fails exactly on an empty active split. Otherwise it moves the cursor as `IncIdx` does and selects the name at position `(cursor + 1) mod len`, the advanced cursor and not the one read first. |
| `DatasetLoader.Prepared` | unet_lidar/dataset_loader.py:139-140 | Without the binary-lidar option the mask is untouched. With it the mask keeps its shape, every pixel is 0 or 255, and a pixel is 0 exactly where the decoded mask is 0. |
| `DatasetLoader.LoadTiles` | unet_lidar/dataset_loader.py:88-92 | Loading succeeds exactly when both rasters decode to 3000 x 3000. The faults come in the source's order. A missing mask gives `ReadFailed` and a mis-shaped mask gives `BadShape`. After a good mask, a missing image gives `ReadFailed` and a mis-shaped image gives `BadShape`. On success there is one window per tile, with equally many mask and image tiles. Tile `k` of each list is the window `k` of the (optionally thresholded) mask and of the image, pixel by pixel. |
| `DatasetLoader.CutPair` | unet_lidar/dataset_loader.py:145-162 | Mask and image are cut by the same list of windows. The two tile lists have one tile per window and equal lengths, and tile `k` of each is the window `k` of its raster. |
| `DatasetLoader.GetItems` | unet_lidar/dataset_loader.py:133-176 | On an empty active split nothing changes and the call fails with `EmptySplit`. Otherwise the loader always moves to the advanced cursor. The batch is produced exactly when the pair under position `(cursor + 1) mod len` is readable and well shaped, and it names that file. Otherwise the fault follows the order in which the pair is checked: a missing mask gives `ReadFailed`, a mis-shaped mask `BadShape`, a missing image `ReadFailed`, and a mis-shaped image `BadShape`. Its mask and image tiles are cut from identical windows of the two rasters. |
| `Rasters.Binarize` | unet_lidar/dataset_loader.py:139-140 | Thresholding keeps the mask's shape. An output pixel is 0 exactly when the input pixel was 0, and every output pixel is 0 or 255. |
| `Rasters.BinarizeIdempotent` | unet_lidar/dataset_loader.py:139-140 | Thresholding twice equals thresholding once. |
| `Rasters.BinarizeFixesBinaryMasks` | unet_lidar/dataset_loader.py:139-140 | A mask whose pixels are all 0 or 255 is left unchanged by thresholding. |
| `Rasters.Crop` | unet_lidar/dataset_loader.py:149-154 | The slice `r[top:bottom, left:right]` has `bottom - top` rows of `right - left` pixels, and its pixel `(i, j)` is pixel `(top + i, left + j)` of the raster. |
| `Rasters.CutTiles` | unet_lidar/dataset_loader.py:147-162 | Slicing one raster by a list of windows gives one tile per window, in window order, each exactly that window of the raster. |
| `Tiling.RowCells` | unet_lidar/dataset_loader.py:148-154 | The inner loop over `j` appends, for grid row `i`, the windows of columns `j, j+1, ..., 5` in that order. |
| `Tiling.GridCells` | unet_lidar/dataset_loader.py:147-154 | The nested loops append `6 * (6 - i)` windows from grid row `i` on. Window `k` is the cell at grid row `i + k / 6` and grid column `k % 6`, which is row-major order. |
| `Tiling.TileRects` | unet_lidar/dataset_loader.py:145-162 | With slicing on there are exactly 36 windows. With slicing off there is exactly one, the square `[0, 2976)` x `[0, 2976)`. |
| `Tiling.TileGeometry` | unet_lidar/dataset_loader.py:145-154 | Tile `k` covers rows `[496*(k/6), 496*(k/6+1))` and columns `[496*(k%6), 496*(k%6+1))`. |
| `Tiling.TilesWithinRaster` | unet_lidar/dataset_loader.py:145-162 | Every window lies inside a 3000 x 3000 raster. Windows are 496 on a side when slicing and 2976 otherwise. |
| `Tiling.TilesDisjoint` | unet_lidar/dataset_loader.py:147-154 | A pixel lying in two tiles forces them to be the same tile, so distinct tiles are pairwise disjoint. |
| `Tiling.TilesCover` | unet_lidar/dataset_loader.py:145-162 | A pixel lies in some tile if and only if it is in `[0, 2976)` x `[0, 2976)`, in both modes. The 24-pixel border of the raster is never used. |
| `Cycle.Visit` | unet_lidar/dataset_loader.py:133-137 | A run of `n` calls succeeds exactly when `n` is 0 or the active split is non-empty, and otherwise fails with `EmptySplit`. A successful run loads `n` names. |
| `Cycle.VisitOrder` | unet_lidar/dataset_loader.py:133-137 | Call `k` (from 0) of a run starting at cursor `c` loads the active split's name at position `(c + k + 1) mod len`. |
| `Cycle.VisitMoves` | unet_lidar/dataset_loader.py:71-75 | After `n` calls the active cursor is `(c + n) mod len`. The other cursor, the splits and the options are unchanged. |
| `Cycle.FreshLoadOrder` | unet_lidar/dataset_loader.py:133-137 | On a freshly built loader the `n`-th call (from 1) loads position `n mod len` of the active split. |
| `Cycle.PositionsBijective` | unet_lidar/dataset_loader.py:71-75 | Over `len` consecutive calls every position of the split is loaded, and no position is loaded twice. |
| `Cycle.FullCycle` | unet_lidar/dataset_loader.py:133-137 | `len` consecutive calls load the split rotated to begin at `(c + 1) mod len`. As a multiset, these are exactly the split's names. |
| `Cycle.CycleReturns` | unet_lidar/dataset_loader.py:71-75 | After `len` calls a loader whose cursors satisfy the invariant is back in exactly the state it started in. |
| `Cycle.VisitPeriodic` | unet_lidar/dataset_loader.py:71-75 | The loaded names repeat with period `len`: call `k + len` loads what call `k` loaded. |
| `Cycle.GetItemsStep` | unet_lidar/dataset_loader.py:133-137 | One `get_items` call on a non-empty split is one step of `Visit`. It leaves the loader that step leaves, and it returns a batch exactly when the name that step loads is readable and well shaped, under that name. |
| `Cycle.CallsFollowVisit` | unet_lidar/dataset_loader.py:133-137 | `n` successive `get_items` calls follow `Visit(s, n)`: call `k` reads the run's `k`-th name and the last call leaves the run's final loader. So the order, full-cycle and period results about `Visit` describe `get_items` itself. |

## Left out

- File listing and decoding (`os.listdir`, `cv2.imread`) are file I/O and an external codec. The listings are inputs to `New`, and the decoders are function parameters of `GetItems`.
- `_normalize` and the float32 scaling of every tile are floating-point numerics. A photo tile of one flat colour has zero spread and divides by zero. The model's batch holds the integer tiles before normalisation, and the added trailing channel axis of the mask tiles is not represented.
- `_augment_data` and the shared `ImageDataGenerator` are a randomised external library, so the `is_augment` option is kept in the configuration but has no effect in the model.
- GetItems: its "tile `k` is window `k`" describes the returned lists only when `is_augment` is off. The option is on by default, and then the tiles pass through the generator's `flow`, which transforms each tile and by default shuffles their order. The model does not describe the augmented output.
- SplitPoint: the split fraction is an exact rational, so the rounding of the float product `ds_len * train_split` is not modelled. For some fractions the float product lands just below an integer that the exact product reaches.
- The progress messages and the demonstration under `__main__` are diagnostics, not behaviour.
- The loader's options are fixed for the loader's life. A caller reassigning `is_train` on a live object is not modelled.
