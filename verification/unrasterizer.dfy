/** `Unrasterizer`: the selector that walks the cells in descending order and
    keeps a boolean mask of the cells still eligible, clearing a window around
    each selection. The class is proved against the walk of module Greedy. */
module Masked {
  import opened Raster
  import opened PixelOrder
  import opened Greedy
  import opened Base

  /** `mask[row_slice, col_slice] = False`: numpy's slice assignment on a
      boolean array, with both slices normalised against the array's shape. */
  method ClearWindow(m: array2<bool>, rows: Slice, cols: Slice)
    modifies m
    ensures forall x, y :: 0 <= x < m.Length0 && 0 <= y < m.Length1 ==>
      m[x, y] == (old(m[x, y]) && !(rows.Selects(x, m.Length0) && cols.Selects(y, m.Length1)))
  {
    var r0, r1 := rows.Lo(m.Length0), rows.Hi(m.Length0);
    var c0, c1 := cols.Lo(m.Length1), cols.Hi(m.Length1);
    var i := r0;
    while i < r1
      invariant r0 <= i <= r1
      invariant forall x, y :: 0 <= x < m.Length0 && 0 <= y < m.Length1 ==>
        m[x, y] == (old(m[x, y]) && !(r0 <= x < i && c0 <= y < c1))
    {
      var j := c0;
      while j < c1
        invariant c0 <= j <= c1
        invariant forall x, y :: 0 <= x < m.Length0 && 0 <= y < m.Length1 ==>
          m[x, y] == (old(m[x, y]) && !((r0 <= x < i && c0 <= y < c1) || (x == i && c0 <= y < j)))
      {
        m[i, j] := false;
        j := j + 1;
      }
      i := i + 1;
    }
  }

  /** The selections of a fresh `Unrasterizer` on a band, read off a given
      descending order: pixels, reweighted values and coordinates, the
      coordinates shifted by the window's offsets. */
  function SelectInWindow(b: Band, order: seq<Pixel>, xy: (int, int) -> Coord, w: int, t: real, win: Window): (r: (seq<Pixel>, seq<Value>, seq<Coord>))
    requires b.Valid() && AllIn(b, order)
    ensures |r.0| == |r.1| == |r.2|
    ensures AllIn(b, r.0)
  {
    var s := Walk(b, order, w, t, |order|);
    (s.pixels, ReassignPixelValues(b, s.pixels, s.raw), GetCoordinates(xy, s.pixels, win.rowOff, win.colOff))
  }

  /** The walk over the whole sorted order of a band: what one call of
      `_select_representative_pixels_from_band` selects. */
  ghost function Run(b: Band, w: int, t: real): (s: Selection)
    requires b.Valid()
    ensures |s.indexes| == |s.pixels| == |s.raw| && AllIn(b, s.pixels)
  {
    Walk(b, SortPixels(b), w, t, |SortPixels(b)|)
  }

  /** The threshold used when none is given. */
  const DefaultThreshold: real := 1.0

  /** The keyword argument `threshold`, falling back to its default. */
  function ThresholdOrDefault(threshold: Option<real>): (t: real)
    ensures threshold.None? ==> t == DefaultThreshold
    ensures threshold.Some? ==> t == threshold.value
  {
    if threshold.Some? then threshold.value else DefaultThreshold
  }

  class Unrasterizer {
    const maskWidth: int
    const threshold: real
    /** Eligibility of each cell; `None` before the first selection. */
    var mask: array2?<bool>
    var selectedIndexes: seq<nat>
    var selectedPixels: seq<Pixel>
    var rawPixelValues: seq<real>
    var selectedValues: seq<Value>
    var selectedCoords: seq<Coord>

    /** Every selection appends one index, one pixel and one raw value. */
    ghost predicate Valid()
      reads this
    {
      |selectedIndexes| == |selectedPixels| == |rawPixelValues|
    }

    /** `Unrasterizer(mask_width, threshold=1.0)`: an absent threshold is 1.0. */
    constructor(maskWidth: int, threshold: Option<real>)
      ensures Valid()
      ensures this.maskWidth == maskWidth && this.threshold == ThresholdOrDefault(threshold) && mask == null
      ensures selectedIndexes == [] && selectedPixels == [] && rawPixelValues == []
      ensures selectedValues == [] && selectedCoords == []
    {
      this.maskWidth := maskWidth;
      this.threshold := ThresholdOrDefault(threshold);
      mask := null;
      selectedIndexes, selectedPixels, rawPixelValues := [], [], [];
      selectedValues, selectedCoords := [], [];
    }

    /** `_select_next_pixel(band, pixel, idx)`: records the selection and clears
        the pixel's window from the mask. */
    method SelectNextPixel(b: Band, p: Pixel, idx: nat)
      requires Valid() && b.Valid() && b.Contains(p)
      requires mask != null && mask.Length0 == b.height && mask.Length1 == b.width
      modifies this, mask
      ensures Valid() && mask == old(mask)
      ensures selectedIndexes == old(selectedIndexes) + [idx]
      ensures selectedPixels == old(selectedPixels) + [p]
      ensures rawPixelValues == old(rawPixelValues) + [RawValue(b, p, maskWidth)]
      ensures selectedValues == old(selectedValues) && selectedCoords == old(selectedCoords)
      ensures forall x, y :: 0 <= x < b.height && 0 <= y < b.width ==>
        mask[x, y] == (old(mask[x, y]) && !InWindow(b, p, maskWidth, Pixel(x, y)))
    {
      selectedIndexes := selectedIndexes + [idx];
      selectedPixels := selectedPixels + [p];
      var (rows, cols) := PixelWindow(p, maskWidth, maskWidth);
      ClearWindow(mask, rows, cols);
      rawPixelValues := rawPixelValues + [RawValue(b, p, maskWidth)];
    }

    /** The instance holds the lists `base` extended by the selection `s`, and
        the mask the walk has after selecting `s.pixels`. */
    ghost predicate Mirrors(b: Band, base: Selection, s: Selection)
      reads this, mask
    {
      b.Valid() && mask != null && mask.Length0 == b.height && mask.Length1 == b.width &&
      selectedIndexes == base.indexes + s.indexes && selectedPixels == base.pixels + s.pixels &&
      rawPixelValues == base.raw + s.raw &&
      forall x, y :: 0 <= x < b.height && 0 <= y < b.width ==>
        mask[x, y] == MaskEntry(b, maskWidth, threshold, s.pixels, Pixel(x, y))
    }

    /** One turn of the loop of `_select_representative_pixels_from_band`:
        the cell at sorted index idx is selected when its mask entry is still
        true. The instance then mirrors the walk one step further. */
    method VisitNext(b: Band, order: seq<Pixel>, idx: nat, ghost base: Selection)
      requires Valid() && b.Valid() && AllIn(b, order) && idx < |order|
      requires Mirrors(b, base, Walk(b, order, maskWidth, threshold, idx))
      modifies this, mask
      ensures Valid() && mask == old(mask)
      ensures Mirrors(b, base, Walk(b, order, maskWidth, threshold, idx + 1))
      ensures selectedValues == old(selectedValues) && selectedCoords == old(selectedCoords)
    {
      ghost var s := Walk(b, order, maskWidth, threshold, idx);
      var pixel := order[idx];
      assert mask[pixel.row, pixel.col] == MaskEntry(b, maskWidth, threshold, s.pixels, pixel);
      if mask[pixel.row, pixel.col] {
        var m := mask;
        SelectNextPixel(b, pixel, idx);
        StepSelects(b, order, maskWidth, threshold, idx, m);
        assert selectedIndexes == base.indexes + (s.indexes + [idx]);
        assert selectedPixels == base.pixels + (s.pixels + [pixel]);
        assert rawPixelValues == base.raw + (s.raw + [RawValue(b, pixel, maskWidth)]);
      } else {
        WalkStep(b, order, maskWidth, threshold, idx + 1);
      }
    }

    /** The loop of `_select_representative_pixels_from_band`: visits the cells
        of `order` in turn and selects each one whose mask entry is still true.
        Afterwards the lists have grown by the walk's selections and the mask
        holds the walk's mask. */
    method VisitInOrder(b: Band, order: seq<Pixel>, ghost base: Selection)
      requires Valid() && b.Valid() && AllIn(b, order)
      requires Mirrors(b, base, Selection([], [], []))
      modifies this, mask
      ensures Valid() && mask == old(mask)
      ensures selectedIndexes == base.indexes + Walk(b, order, maskWidth, threshold, |order|).indexes
      ensures selectedPixels == base.pixels + Walk(b, order, maskWidth, threshold, |order|).pixels
      ensures rawPixelValues == base.raw + Walk(b, order, maskWidth, threshold, |order|).raw
      ensures forall x, y :: 0 <= x < b.height && 0 <= y < b.width ==>
        mask[x, y] == MaskEntry(b, maskWidth, threshold, Walk(b, order, maskWidth, threshold, |order|).pixels, Pixel(x, y))
      ensures selectedValues == old(selectedValues) && selectedCoords == old(selectedCoords)
    {
      var idx := 0;
      while idx < |order|
        invariant idx <= |order| && mask == old(mask) && Valid()
        invariant Mirrors(b, base, Walk(b, order, maskWidth, threshold, idx))
        invariant selectedValues == old(selectedValues) && selectedCoords == old(selectedCoords)
      {
        VisitNext(b, order, idx, base);
        idx := idx + 1;
      }
    }

    /** `self.mask = band > self.threshold`: a fresh mask in which every cell
        whose value exceeds the threshold is eligible. */
    method ResetMask(b: Band)
      requires Valid() && b.Valid()
      modifies this
      ensures Valid() && mask != null && fresh(mask)
      ensures Mirrors(b, Selection(old(selectedIndexes), old(selectedPixels), old(rawPixelValues)), Selection([], [], []))
      ensures selectedIndexes == old(selectedIndexes) && selectedPixels == old(selectedPixels)
      ensures rawPixelValues == old(rawPixelValues)
      ensures selectedValues == old(selectedValues) && selectedCoords == old(selectedCoords)
    {
      var m := new bool[b.height, b.width]((x: nat, y: nat) requires x < b.height && y < b.width => b.rows[x][y] > threshold);
      mask := m;
      forall x, y | 0 <= x < b.height && 0 <= y < b.width
        ensures m[x, y] == MaskEntry(b, maskWidth, threshold, [], Pixel(x, y))
      {
        assert m[x, y] == (b.rows[x][y] > threshold);
      }
      assert selectedIndexes == selectedIndexes + [] && selectedPixels == selectedPixels + [];
      assert rawPixelValues == rawPixelValues + [];
    }

    /** `_select_representative_pixels_from_band(band, transform, window)`:
        resets the mask to `band > threshold`, walks the cells in descending
        order selecting every cell still eligible, then reweights and locates
        everything selected so far. The three lists are appended to, never
        reset, so a second call on the same instance accumulates. */
    method SelectRepresentativePixelsFromBand(b: Band, xy: (int, int) -> Coord, window: Option<Window>)
      returns (pixels: seq<Pixel>, values: seq<Value>, coords: seq<Coord>)
      requires Valid() && b.Valid()
      modifies this
      ensures Valid() && mask != null && fresh(mask)
      ensures selectedIndexes == old(selectedIndexes) + Run(b, maskWidth, threshold).indexes
      ensures selectedPixels == old(selectedPixels) + Run(b, maskWidth, threshold).pixels
      ensures rawPixelValues == old(rawPixelValues) + Run(b, maskWidth, threshold).raw
      ensures mask.Length0 == b.height && mask.Length1 == b.width
      ensures forall x, y :: 0 <= x < b.height && 0 <= y < b.width ==>
        mask[x, y] == MaskEntry(b, maskWidth, threshold, Run(b, maskWidth, threshold).pixels, Pixel(x, y))
      ensures selectedValues == ReassignPixelValues(b, selectedPixels, rawPixelValues)
      ensures selectedCoords == GetCoordinates(xy, selectedPixels,
        if window.Some? then window.value.rowOff else 0, if window.Some? then window.value.colOff else 0)
      ensures pixels == selectedPixels && values == selectedValues && coords == selectedCoords
    {
      var win := if window.Some? then window.value else Window(0, 0, b.width, b.height);
      ghost var base := Selection(selectedIndexes, selectedPixels, rawPixelValues);
      ResetMask(b);
      var sorted := SortPixels(b);
      VisitInOrder(b, sorted, base);
      selectedValues := ReassignPixelValues(b, selectedPixels, rawPixelValues);
      selectedCoords := GetCoordinates(xy, selectedPixels, win.rowOff, win.colOff);
      pixels, values, coords := selectedPixels, selectedValues, selectedCoords;
    }

    /** `select_representative_pixels(raster_data, window)`: reads the band
        inside the window (the whole raster when no window is given) and
        selects from it. Reading is the parameter `read`. The lists grow by the
        walk over the window's band, the mask becomes that walk's mask. */
    method SelectRepresentativePixels(width: nat, height: nat, read: Window -> Band, xy: (int, int) -> Coord, window: Option<Window>)
      requires Valid()
      requires read(if window.Some? then window.value else Window(0, 0, width, height)).Valid()
      modifies this
      ensures Valid() && mask != null && fresh(mask)
      ensures var win := if window.Some? then window.value else Window(0, 0, width, height);
        var s := Run(read(win), maskWidth, threshold);
        selectedIndexes == old(selectedIndexes) + s.indexes &&
        selectedPixels == old(selectedPixels) + s.pixels &&
        rawPixelValues == old(rawPixelValues) + s.raw &&
        mask.Length0 == read(win).height && mask.Length1 == read(win).width &&
        (forall x, y :: 0 <= x < read(win).height && 0 <= y < read(win).width ==>
          mask[x, y] == MaskEntry(read(win), maskWidth, threshold, s.pixels, Pixel(x, y))) &&
        selectedValues == ReassignPixelValues(read(win), selectedPixels, rawPixelValues) &&
        selectedCoords == GetCoordinates(xy, selectedPixels, win.rowOff, win.colOff)
    {
      var win := if window.Some? then window.value else Window(0, 0, width, height);
      var b := read(win);
      var _, _, _ := SelectRepresentativePixelsFromBand(b, xy, Some(win));
    }
  }

  /** After selecting the next pixel, the mask agrees with the walk one step further. */
  lemma StepSelects(b: Band, order: seq<Pixel>, w: int, t: real, k: nat, m: array2<bool>)
    requires b.Valid() && AllIn(b, order) && k < |order|
    requires MaskEntry(b, w, t, Walk(b, order, w, t, k).pixels, order[k])
    requires m.Length0 == b.height && m.Length1 == b.width
    ensures Walk(b, order, w, t, k + 1) == Selection(Walk(b, order, w, t, k).indexes + [k],
      Walk(b, order, w, t, k).pixels + [order[k]], Walk(b, order, w, t, k).raw + [RawValue(b, order[k], w)])
    ensures (forall x, y :: 0 <= x < b.height && 0 <= y < b.width ==>
              m[x, y] == (MaskEntry(b, w, t, Walk(b, order, w, t, k).pixels, Pixel(x, y)) && !InWindow(b, order[k], w, Pixel(x, y))))
        ==> (forall x, y :: 0 <= x < b.height && 0 <= y < b.width ==>
              m[x, y] == MaskEntry(b, w, t, Walk(b, order, w, t, k + 1).pixels, Pixel(x, y)))
  {
    WalkStep(b, order, w, t, k + 1);
    forall x, y | 0 <= x < b.height && 0 <= y < b.width
      ensures MaskEntry(b, w, t, Walk(b, order, w, t, k + 1).pixels, Pixel(x, y))
           == (MaskEntry(b, w, t, Walk(b, order, w, t, k).pixels, Pixel(x, y)) && !InWindow(b, order[k], w, Pixel(x, y)))
    {
      MaskEntryAppend(b, w, t, Walk(b, order, w, t, k).pixels, order[k], Pixel(x, y));
    }
  }

  /** What the masked selector promises of a fresh run along any descending
      order: every selected pixel is above the threshold, none lies in the
      window of an earlier one, any two are at least the mask width apart,
      values come out non-increasing, and one value and one coordinate are
      produced per pixel. */
  lemma SelectInWindowSound(b: Band, order: seq<Pixel>, xy: (int, int) -> Coord, w: int, t: real, win: Window)
    requires IsDescendingOrder(b, order)
    ensures AboveThreshold(b, t, SelectInWindow(b, order, xy, w, t, win).0)
    ensures Excluding(b, w, SelectInWindow(b, order, xy, w, t, win).0)
    ensures Separated(w, SelectInWindow(b, order, xy, w, t, win).0)
    ensures NonIncreasing(b, SelectInWindow(b, order, xy, w, t, win).0)
  {
    WalkAboveThreshold(b, order, w, t, |order|);
    WalkExclusion(b, order, w, t, |order|);
    WalkSeparation(b, order, w, t, |order|);
    WalkDescending(b, order, w, t, |order|);
  }

  /** Value conservation for a fresh run: with a mask width of at least one and
      a non-negative threshold, a non-empty selection's values are all finite
      and add up to the band's positive mass. */
  lemma SelectInWindowConservesMass(b: Band, order: seq<Pixel>, xy: (int, int) -> Coord, w: int, t: real, win: Window)
    requires IsDescendingOrder(b, order) && w >= 1 && t >= 0.0
    requires SelectInWindow(b, order, xy, w, t, win).0 != []
    ensures forall i :: 0 <= i < |SelectInWindow(b, order, xy, w, t, win).1| ==> SelectInWindow(b, order, xy, w, t, win).1[i].Finite?
    ensures FiniteSum(SelectInWindow(b, order, xy, w, t, win).1) == PositiveSum(b)
  {
    var s := Walk(b, order, w, t, |order|);
    WalkAboveThreshold(b, order, w, t, |order|);
    WalkRawValues(b, order, w, t, |order|);
    RawValueAtLeastPixel(b, s.pixels[0], w);
    SumPositive(s.raw);
    ReassignConservesMass(b, s.pixels, s.raw);
  }
}
