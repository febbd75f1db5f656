/** `WindowedUnrasterizer`: cuts the raster into windows, runs a fresh
    `Unrasterizer` on each window's band and concatenates the results. The
    process pool is modelled as a sequential map over the windows. */
module Windowed {
  import opened Raster
  import opened PixelOrder
  import opened Base
  import opened Masked
  import opened Tiling

  /** One window's result: its pixels, values and coordinates. */
  type Result = (seq<Pixel>, seq<Value>, seq<Coord>)

  /** The shape used for tiling: the given one, or the raster's block shape. */
  function ShapeUsed(blockShape: (int, int), windowShape: Option<(int, int)>): (r: (int, int))
    ensures windowShape.None? ==> r == blockShape
    ensures windowShape.Some? ==> r == windowShape.value
  {
    if windowShape.Some? then windowShape.value else blockShape
  }

  /** What the map over the windows yields, window by window, when each
      window's band is `read(window)`. */
  function Results(read: Window -> Band, xy: (int, int) -> Coord, w: int, t: real, ws: seq<Window>): (rs: seq<Result>)
    requires forall win :: read(win).Valid()
    ensures |rs| == |ws|
    ensures forall k :: 0 <= k < |rs| ==> |rs[k].0| == |rs[k].1| == |rs[k].2|
  {
    seq(|ws|, k requires 0 <= k < |ws| => SelectInWindow(read(ws[k]), SortPixels(read(ws[k])), xy, w, t, ws[k]))
  }

  /** Mapping one more window appends that window's result. */
  lemma ResultsSnoc(read: Window -> Band, xy: (int, int) -> Coord, w: int, t: real, ws: seq<Window>, k: nat)
    requires forall win :: read(win).Valid()
    requires k < |ws|
    ensures Results(read, xy, w, t, ws[..k + 1])
         == Results(read, xy, w, t, ws[..k]) + [SelectInWindow(read(ws[k]), SortPixels(read(ws[k])), xy, w, t, ws[k])]
  {
    var a, b := Results(read, xy, w, t, ws[..k + 1]), Results(read, xy, w, t, ws[..k]);
    assert forall i :: 0 <= i < k ==> a[i] == b[i];
  }

  /** `zip(*results)`: the pixel lists, value lists and coordinate lists. */
  function PixelLists(rs: seq<Result>): (r: seq<seq<Pixel>>)
    ensures |r| == |rs| && forall k :: 0 <= k < |rs| ==> r[k] == rs[k].0
  {
    seq(|rs|, k requires 0 <= k < |rs| => rs[k].0)
  }

  function ValueLists(rs: seq<Result>): (r: seq<seq<Value>>)
    ensures |r| == |rs| && forall k :: 0 <= k < |rs| ==> r[k] == rs[k].1
  {
    seq(|rs|, k requires 0 <= k < |rs| => rs[k].1)
  }

  function CoordLists(rs: seq<Result>): (r: seq<seq<Coord>>)
    ensures |r| == |rs| && forall k :: 0 <= k < |rs| ==> r[k] == rs[k].2
  {
    seq(|rs|, k requires 0 <= k < |rs| => rs[k].2)
  }

  /** Lists of lists with the same lengths, list by list, have the same total length. */
  lemma {:induction false} TotalLengthEqual<A, B>(xs: seq<seq<A>>, ys: seq<seq<B>>)
    requires |xs| == |ys| && forall k :: 0 <= k < |xs| ==> |xs[k]| == |ys[k]|
    ensures TotalLength(xs) == TotalLength(ys)
  {
    if xs != [] {
      TotalLengthEqual(xs[..|xs| - 1], ys[..|ys| - 1]);
    }
  }

  /** The merge keeps each pixel with its value and coordinate: the three
      merged lists have the sum of the per-window lengths, and element j of
      window k sits at the same position in all three. */
  lemma MergeAligned(rs: seq<Result>, k: nat, j: nat)
    requires forall i :: 0 <= i < |rs| ==> |rs[i].0| == |rs[i].1| == |rs[i].2|
    requires k < |rs| && j < |rs[k].0|
    ensures |Flatten(PixelLists(rs))| == |Flatten(ValueLists(rs))| == |Flatten(CoordLists(rs))| == TotalLength(PixelLists(rs))
    ensures TotalLength(PixelLists(rs)[..k]) + j < |Flatten(PixelLists(rs))|
    ensures Flatten(PixelLists(rs))[TotalLength(PixelLists(rs)[..k]) + j] == rs[k].0[j]
    ensures Flatten(ValueLists(rs))[TotalLength(PixelLists(rs)[..k]) + j] == rs[k].1[j]
    ensures Flatten(CoordLists(rs))[TotalLength(PixelLists(rs)[..k]) + j] == rs[k].2[j]
  {
    var ps, vs, cs := PixelLists(rs), ValueLists(rs), CoordLists(rs);
    TotalLengthEqual(ps, vs);
    TotalLengthEqual(ps, cs);
    TotalLengthEqual(ps[..k], vs[..k]);
    TotalLengthEqual(ps[..k], cs[..k]);
    FlattenAt(ps, k, j);
    FlattenAt(vs, k, j);
    FlattenAt(cs, k, j);
  }

  class WindowedUnrasterizer {
    const maskWidth: int
    const threshold: real
    var selectedPixels: seq<Pixel>
    var selectedValues: seq<Value>
    var selectedCoords: seq<Coord>

    /** `WindowedUnrasterizer(mask_width, threshold=1.0)`: an absent threshold is 1.0. */
    constructor(maskWidth: int, threshold: Option<real>)
      ensures this.maskWidth == maskWidth && this.threshold == ThresholdOrDefault(threshold)
      ensures selectedPixels == [] && selectedValues == [] && selectedCoords == []
    {
      this.maskWidth := maskWidth;
      this.threshold := ThresholdOrDefault(threshold);
      selectedPixels, selectedValues, selectedCoords := [], [], [];
    }

    /** `select_representative_pixels_in_window(band, transform, window)`: a
        fresh `Unrasterizer` with this instance's settings selects from the
        window's band, so nothing carries over from other windows. */
    method SelectRepresentativePixelsInWindow(b: Band, xy: (int, int) -> Coord, win: Window) returns (r: Result)
      requires b.Valid()
      ensures r == SelectInWindow(b, SortPixels(b), xy, maskWidth, threshold, win)
    {
      var u := new Unrasterizer(maskWidth, Some(threshold));
      var pixels, values, coords := u.SelectRepresentativePixelsFromBand(b, xy, Some(win));
      assert [] + Run(b, maskWidth, threshold).pixels == Run(b, maskWidth, threshold).pixels;
      assert [] + Run(b, maskWidth, threshold).raw == Run(b, maskWidth, threshold).raw;
      r := (pixels, values, coords);
    }

    /** `pool.map(select_representative_pixels_in_window, ...)` over the windows,
        one fresh selector per window, results in window order. */
    method MapWindows(read: Window -> Band, xy: (int, int) -> Coord, ws: seq<Window>) returns (results: seq<Result>)
      requires forall win :: read(win).Valid()
      ensures results == Results(read, xy, maskWidth, threshold, ws)
    {
      results := [];
      for k := 0 to |ws|
        invariant results == Results(read, xy, maskWidth, threshold, ws[..k])
      {
        var r := SelectRepresentativePixelsInWindow(read(ws[k]), xy, ws[k]);
        ResultsSnoc(read, xy, maskWidth, threshold, ws, k);
        results := results + [r];
      }
      assert ws[..|ws|] == ws;
    }

    /** `select_representative_pixels(raster_data, window_shape, n_jobs)` for a
        raster of the given width and height, block shape, band reader `read`
        and affine transform `xy`. A zero in the shape raises ZeroDivisionError
        while tiling; no windows at all leave nothing to unpack and raise
        ValueError; in both cases the fields keep their old contents. */
    method SelectRepresentativePixels(width: nat, height: nat, blockShape: (int, int), read: Window -> Band,
                                      xy: (int, int) -> Coord, windowShape: Option<(int, int)>)
      returns (status: Status)
      requires forall win :: read(win).Valid()
      modifies this
      ensures status == ZeroDivisionError <==> GetWindows(width, height, ShapeUsed(blockShape, windowShape)).None?
      ensures status == ValueError <==> GetWindows(width, height, ShapeUsed(blockShape, windowShape)) == Some([])
      ensures status == Ok || status == ZeroDivisionError || status == ValueError
      ensures status == Ok ==>
        var rs := Results(read, xy, maskWidth, threshold, GetWindows(width, height, ShapeUsed(blockShape, windowShape)).value);
        selectedPixels == Flatten(PixelLists(rs)) && selectedValues == Flatten(ValueLists(rs)) &&
        selectedCoords == Flatten(CoordLists(rs))
      ensures status != Ok ==>
        selectedPixels == old(selectedPixels) && selectedValues == old(selectedValues) &&
        selectedCoords == old(selectedCoords)
    {
      var shape := ShapeUsed(blockShape, windowShape);
      var windows := GetWindows(width, height, shape);
      if windows.None? {
        return ZeroDivisionError;
      }
      var results := MapWindows(read, xy, windows.value);
      if results == [] {
        return ValueError;
      }
      selectedPixels := Flatten(PixelLists(results));
      selectedValues := Flatten(ValueLists(results));
      selectedCoords := Flatten(CoordLists(results));
      status := Ok;
    }
  }
}
