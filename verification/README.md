# unrasterize: representative-pixel selection, modelled in Dafny

unrasterize turns a raster band into a short list of representative points. It keeps
selected cells (row, column) and reweights their values so that the selection carries
the band's total positive mass. It then maps each cell to a geographic coordinate.
This project models the selection logic of `unrasterize/classes.py` and proves the
properties it promises:

- **Descending pixel order** (`_sort_pixels`), module `PixelOrder`: every cell of the band
  exactly once, by non-increasing value. The selectors' properties are proved for *any*
  such order, because the reversed `argsort` breaks ties in an unspecified way. One
  concrete order (`SortPixels`) is also defined and proved to be such an order.
- **Shared helpers** (`_reassign_pixel_values`, `_get_coordinates`), module `Base`.
- **Naive top-K selector** (`NaiveUnrasterizer`), module `Naive`: a class whose method
  sets the instance's lists, including the IndexError when `n_pixels` exceeds the
  number of cells.
- **Greedy exclusion-mask selector** (`Unrasterizer`). Module `Greedy` states the walk
  over the sorted cells as values (`Walk`: the selections after visiting a prefix of the
  order) and proves threshold, exclusion, separation, ordering and mask monotonicity
  about it. Module `Masked` holds the imperative `Unrasterizer` class. It has an
  `array2<bool>` mask that `ClearWindow` clears in place, and list fields that grow by
  one entry per selection. Its methods are proved to follow the walk.
- **Windowed selector** (`WindowedUnrasterizer`), modules `Tiling` and `Windowed`: tiling
  the raster into windows, a fresh `Unrasterizer` per window, and the in-order merge.

Values are exact reals. Where numpy's float division by a zero sum produces inf/NaN, the
model produces `NonFinite` entries. Python slicing is modelled exactly: a negative bound
counts from the end, and bounds are clipped to the axis. The half-open window
`[max(r - w, 0), r + w)` is kept as written, so the cell at `r + w` is not cleared
(`Greedy.WindowAsymmetry`, illustrated by `Greedy.AdjacentBelowIsSelected`). `_get_pixel_window` offsets columns by its `height`
argument, which the callers always set equal to `width`.

This window does not keep the class docstring's promises. classes.py:253-254 describes
`mask_width` as the minimum number of non-selected pixels between adjacent selected
pixels, and classes.py:261-263 says pixels within `mask_width` of a selection are masked.
The cell `w` rows below or `w` columns to the right of a selection stays eligible, so two
selections can be `w` cells apart with only `w - 1` cells between them. On a row
[3, 2, 1.5] with `w = 1` and the default threshold 1.0, all three adjacent cells are
selected (`Greedy.AdjacentRowAllSelected`). What the code does
guarantee is a Chebyshev distance of at least `w` (`Greedy.WalkSeparation`), and that is
what the model proves.

The docstring of `_get_windows` says the window shape is `(n_rows, n_columns)` and that
windows come in row-major order. The code uses `window_shape[0]` as the column width and
`window_shape[1]` as the row height, and it enumerates columns in the outer loop. The
model follows the code.

## Model

| member | source | states |
|---|---|---|
| PixelOrder.SortPixels | unrasterize/classes.py:108-130 | the result lists H*W cells, each in-bounds cell exactly once, with non-increasing band values |
| PixelOrder.DescendingOrderIsPermutation | unrasterize/classes.py:124-129 | any descending order has no cell twice and misses no in-bounds cell |
| Raster.PositiveSum | unrasterize/classes.py:154 | the band's total positive mass is >= 0 and at least the positive part of every cell |
| Base.BandValues | unrasterize/classes.py:152 | one value per pixel, element i the band's value at pixel i |
| Base.WeightsUsed | unrasterize/classes.py:151-152 | non-empty raw values are used as given; an empty raw list is replaced by the band's values at the pixels, one per pixel |
| Base.Scale | unrasterize/classes.py:156-158 | one output per weight; an output is non-finite if and only if the denominator is zero |
| Base.ReassignPixelValues | unrasterize/classes.py:133-158 | one value per raw value (per pixel when no raw values are given); an empty selection yields an empty list |
| Base.ReassignDefaultsToBandValues | unrasterize/classes.py:151-152 | omitting the raw values is the same as passing the band's values at the selected pixels |
| Base.ReassignConservesMass | unrasterize/classes.py:153-158 | when the weights do not sum to zero, every output is finite and the outputs add up to the band's positive mass |
| Base.ReassignNonFiniteIff | unrasterize/classes.py:155-158 | an output is non-finite if and only if the weights sum to zero |
| Base.ReassignProportional | unrasterize/classes.py:156-158 | each output is its weight times total / sum of weights |
| Base.GetCoordinates | unrasterize/classes.py:180-187 | one coordinate per pixel, the transform applied to (row + row_offset, col + col_offset) |
| Naive.Range | unrasterize/classes.py:230 | `range(0, n)` lists 0 .. n - 1, and nothing when n <= 0 |
| Naive.Gather | unrasterize/classes.py:231 | indexing by a list fails exactly when an index is past the end; otherwise element i is the cell at index i of the list |
| Naive.GatherRange | unrasterize/classes.py:230-231 | gathering `range(0, n)` fails if and only if n exceeds the list's length; otherwise it yields the first n entries |
| Naive.GatherTop | unrasterize/classes.py:228-231 | on the band's descending order: fails if and only if n > H*W; otherwise yields the first n cells, all in the band |
| Naive.TopCellsAreLargest | unrasterize/classes.py:228-231 | every kept cell is at least as large as every in-bounds cell left out |
| Naive.NaiveUnrasterizer.constructor | unrasterize/classes.py:210-213 | stores n_pixels and starts with empty lists |
| Naive.NaiveUnrasterizer.SelectRepresentativePixels | unrasterize/classes.py:215-239 | the index list is set to range(n) first; IndexError if and only if n > H*W, leaving the other lists unchanged; otherwise the first n sorted cells, their reweighted band values and coordinates |
| Naive.NaiveKeepsTopCells | unrasterize/classes.py:228-235 | on success exactly n pixels and n values, and no cell left out exceeds a kept one |
| Greedy.PixelWindow | unrasterize/classes.py:378-386 | both slice starts are clamped at zero (never counting from the end) and equal r - width and c - height when those are non-negative, 0 otherwise; the stops are r + width and c + height, exclusive and left to slicing |
| Greedy.Visit | unrasterize/classes.py:331-335 | one turn of the loop keeps the index, pixel and raw-value lists equally long and every pixel in the band |
| Greedy.Walk | unrasterize/classes.py:331-335 | after any prefix of the order the three lists are equally long and every selected pixel lies in the band |
| Greedy.RawValue | unrasterize/classes.py:370-376 | the raw value of a selection is between 0 and the band's positive mass |
| Greedy.PixelWindowBounds | unrasterize/classes.py:378-386 | the window covers rows [max(r-w,0), min(r+w,H)) and columns [max(c-w,0), min(c+w,W)), and contains the pixel if and only if w >= 1 |
| Greedy.OutsideWindowIsFar | unrasterize/classes.py:378-386 | a cell outside a pixel's window is at Chebyshev distance at least w from it |
| Greedy.MaskEntryAppend | unrasterize/classes.py:363-368 | after a selection, a mask entry is its old value cleared when the cell lies in the new pixel's window |
| Greedy.WalkIndexes | unrasterize/classes.py:331-335 | sorted indexes strictly increase, stay below the number visited, and each pixel is the cell at its index |
| Greedy.WalkRawValues | unrasterize/classes.py:370-376 | raw values are one per pixel, each the positive mass of that pixel's window and >= 0 |
| Greedy.MaskMonotone | unrasterize/classes.py:328-335 | mask entries only change from true to false as the walk proceeds |
| Greedy.WalkSelectsExactly | unrasterize/classes.py:328-335 | the cell at sorted index m is selected if and only if its value exceeds the threshold and no pixel selected before m has it in its window |
| Greedy.WalkAboveThreshold | unrasterize/classes.py:328-335 | every selected pixel's value exceeds the threshold |
| Greedy.WalkExclusion | unrasterize/classes.py:331-368 | no selected pixel lies in the window of a pixel selected before it |
| Greedy.WalkSeparation | unrasterize/classes.py:331-368 | any two selected pixels are at Chebyshev distance at least the mask width |
| Greedy.WalkDescending | unrasterize/classes.py:329-335 | selected pixels come out in non-increasing value order |
| Greedy.WindowAsymmetry | unrasterize/classes.py:382-386 | for any in-band pixel and w >= 1, the cell w rows below (or w columns right) is never in its window, and the cell w rows above (or w columns left), when in the band, always is |
| Greedy.AdjacentBelowIsSelected | unrasterize/classes.py:382-386 | example: on the 2 x 1 band [5, 4] with w = 1 and threshold 1, both cells are selected, because the lower cell is outside the upper one's window |
| Greedy.AdjacentAboveIsCleared | unrasterize/classes.py:382-386 | example: on the 2 x 1 band [4, 5] with w = 1 and threshold 1, only the lower cell is selected, because the upper cell is in its window |
| Greedy.AdjacentRowAllSelected | unrasterize/classes.py:328-335 | example: on the 1 x 3 row [3, 2, 1.5] with w = 1 and threshold 1, all three adjacent cells are selected, so two selections can have w - 1 cells between them |
| Masked.ClearWindow | unrasterize/classes.py:368 | in-place slice assignment: exactly the cells both slices select become false, all others keep their value |
| Masked.SelectInWindow | unrasterize/classes.py:337-352 | one value and one coordinate per selected pixel, all pixels in the band |
| Masked.SelectInWindowSound | unrasterize/classes.py:328-376 | along any descending order the selection is above threshold, excluding, separated and non-increasing |
| Masked.SelectInWindowConservesMass | unrasterize/classes.py:337-341 | for w >= 1 and threshold >= 0, a non-empty selection's values are finite and sum to the band's positive mass |
| Masked.ThresholdOrDefault | unrasterize/classes.py:272 | an absent `threshold` keyword is 1.0, a given one is used as is |
| Masked.Unrasterizer.constructor | unrasterize/classes.py:272-278 | stores mask width and the threshold (1.0 when absent), no mask, empty lists |
| Masked.Unrasterizer.SelectNextPixel | unrasterize/classes.py:354-376 | appends one index, the pixel and its window's raw value, and clears exactly the pixel's window in the mask |
| Masked.Unrasterizer.ResetMask | unrasterize/classes.py:328 | a fresh mask that is true exactly where the band exceeds the threshold; lists unchanged |
| Masked.Unrasterizer.VisitNext | unrasterize/classes.py:331-335 | one loop turn: lists and mask advance exactly as the walk does by one cell |
| Masked.Unrasterizer.VisitInOrder | unrasterize/classes.py:331-335 | after the loop the lists have grown by the walk's selections and the mask equals the walk's mask |
| Masked.Unrasterizer.SelectRepresentativePixelsFromBand | unrasterize/classes.py:303-352 | the lists grow by the walk over the sorted band (accumulating across calls); values are the reweighting of all lists, coordinates are offset by the window |
| Masked.Unrasterizer.SelectRepresentativePixels | unrasterize/classes.py:280-301 | reads the window (the whole raster by default); the index, pixel and raw-value lists grow by the walk over that band, the mask becomes the walk's mask, values are the reweighting of all lists and coordinates are offset by the window |
| Tiling.CeilDiv | unrasterize/classes.py:490-491 | `math.ceil(a / d)`: for positive d, r windows of size d cover a cells and r - 1 would not; for negative d, r * d <= a < (r - 1) * d |
| Tiling.GridIndex | unrasterize/classes.py:492-499 | in the product order with the first coordinate outer, the pair (i, j) sits at i * ny + j, which decodes back to (i, j) |
| Tiling.GetWindows | unrasterize/classes.py:474-500 | ZeroDivisionError if and only if a shape component is zero; otherwise Count(ceil(W/s0)) * Count(ceil(H/s1)) windows |
| Tiling.GetWindowsAt | unrasterize/classes.py:492-500 | position i * ny + j holds the window with column offset i * s0 and row offset j * s1 |
| Tiling.GetWindowsNegative | unrasterize/classes.py:490-500 | a negative shape component (and no zero) gives no windows |
| Tiling.WindowsPartition | unrasterize/classes.py:474-500 | with a positive shape every in-bounds cell lies in exactly one window |
| Tiling.Flatten | unrasterize/classes.py:470-472 | the merged list's length is the sum of the per-window lengths |
| Tiling.FlattenAt | unrasterize/classes.py:470-472 | element j of list i sits right after all elements of the lists before i |
| Windowed.ShapeUsed | unrasterize/classes.py:450-451 | the given window shape, or the raster's block shape when none is given |
| Windowed.PixelLists | unrasterize/classes.py:468 | `zip(*results)`, first component: one list per window, the window's pixels |
| Windowed.ValueLists | unrasterize/classes.py:468 | `zip(*results)`, second component: one list per window, the window's values |
| Windowed.CoordLists | unrasterize/classes.py:468 | `zip(*results)`, third component: one list per window, the window's coordinates |
| Windowed.Results | unrasterize/classes.py:456-466 | one result per window, each with equally many pixels, values and coordinates |
| Windowed.MergeAligned | unrasterize/classes.py:468-472 | the three merged lists have equal length, and element j of window k sits at the same position in all three |
| Windowed.WindowedUnrasterizer.constructor | unrasterize/classes.py:423-429 | stores mask width and the threshold (1.0 when absent), empty lists |
| Windowed.WindowedUnrasterizer.SelectRepresentativePixelsInWindow | unrasterize/classes.py:502-521 | a fresh Unrasterizer's selection on the window's band, coordinates offset by the window |
| Windowed.WindowedUnrasterizer.MapWindows | unrasterize/classes.py:460-466 | the results of the windows in window order |
| Windowed.WindowedUnrasterizer.SelectRepresentativePixels | unrasterize/classes.py:431-472 | ZeroDivisionError if and only if the shape has a zero; ValueError if and only if there are no windows; otherwise the in-order concatenation of the per-window lists; on error the lists are unchanged |

## Left out

- Raster I/O. `raster_data.read`, `raster_data.width/height`, `block_shapes[0]` and `transform` are rasterio calls. They are parameters: a reader `read` from window to band, the raster's width and height, the block shape, and `xy`, an uninterpreted affine map.
- Reads of windows that extend past the raster edge. rasterio clips or pads those, which is not part of this model: `read` returns whatever band it returns.
- `to_geojson` and `to_geopandas`. They serialise through geojson, shapely and geopandas.
- The pathos process pool and `n_jobs`. The map over windows is sequential and keeps window order, which is the order `ProcessPool.map` returns results in.
- float32 accumulation and rounding in `np.sum(..., dtype=np.float32)`. Values are exact reals, so conservation holds exactly; a zero denominator gives `NonFinite` rather than a distinction between inf and NaN.
- `BaseUnrasterizer.select_representative_pixels`, which only raises NotImplementedError, and the unused `manhattan_distance`.
- Multi-band rasters. Only the first band is read, as in the code.
- The `mask` field and `_selected_indexes` of `WindowedUnrasterizer`. The windowed selector never uses them after initialisation.
- Python's truthiness test `if not window` (and `if not window_shape`). It is modelled as an absent argument (`Option`); any given window or shape is used as is.
- PixelOrder.SortPixels: the concrete tie-break is one insertion sort, not numpy's argsort. Every selector property is proved for any order satisfying `IsDescendingOrder`, and `SortPixels` is one such order.
