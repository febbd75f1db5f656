/** The greedy exclusion-mask walk of `Unrasterizer`, stated as values: the
    window that `_get_pixel_window` cuts around a selected pixel, the raw value
    summed over it, and the selections made after visiting a prefix of a
    descending order. */
module Greedy {
  import opened Raster
  import opened PixelOrder

  function Max(a: int, b: int): int {
    if a >= b then a else b
  }

  /** `Unrasterizer._get_pixel_window(pixel, width, height)`: the row slice
      `max(r - width, 0):r + width` and the column slice
      `max(c - height, 0):c + height`. The starts are clamped at zero, so they
      never count from the end of the axis; the stops are left to slicing. */
  function PixelWindow(p: Pixel, width: int, height: int): (r: (Slice, Slice))
    ensures r.0.start >= 0 && r.1.start >= 0
    ensures r.0.start >= p.row - width && r.1.start >= p.col - height
    ensures p.row >= width ==> r.0.start == p.row - width
    ensures p.row < width ==> r.0.start == 0
    ensures p.col >= height ==> r.1.start == p.col - height
    ensures p.col < height ==> r.1.start == 0
    ensures r.0.stop == p.row + width && r.1.stop == p.col + height
  {
    (Slice(Max(p.row - width, 0), p.row + width), Slice(Max(p.col - height, 0), p.col + height))
  }

  /** Cell q is among the cells `mask[row_slice, col_slice]` reaches when the
      window of pixel p is cut with half-width w in both directions. */
  predicate InWindow(b: Band, p: Pixel, w: int, q: Pixel) {
    var (rows, cols) := PixelWindow(p, w, w);
    rows.Selects(q.row, b.height) && cols.Selects(q.col, b.width)
  }

  /** The raw value recorded for a selection at p: the sum of the strictly
      positive band values in its clipped window. */
  function RawValue(b: Band, p: Pixel, w: int): (r: real)
    requires b.Valid()
    ensures 0.0 <= r <= PositiveSum(b)
  {
    var (rows, cols) := PixelWindow(p, w, w);
    RegionPositiveSumNonNegative(b, rows.Lo(b.height), rows.Hi(b.height), cols.Lo(b.width), cols.Hi(b.width));
    RegionPositiveSumAtMostTotal(b, rows.Lo(b.height), rows.Hi(b.height), cols.Lo(b.width), cols.Hi(b.width));
    RegionPositiveSum(b, rows.Lo(b.height), rows.Hi(b.height), cols.Lo(b.width), cols.Hi(b.width))
  }

  /** With a non-negative half-width the window of an in-bounds pixel covers
      rows [max(r - w, 0), min(r + w, H)) and columns [max(c - w, 0), min(c + w, W)):
      the upper end is exclusive and clipped by slicing. It holds the pixel
      itself exactly when w >= 1. */
  lemma PixelWindowBounds(b: Band, p: Pixel, w: int)
    requires b.Contains(p) && w >= 0
    ensures PixelWindow(p, w, w).0.Lo(b.height) == Max(p.row - w, 0)
    ensures PixelWindow(p, w, w).0.Hi(b.height) == if p.row + w < b.height then p.row + w else b.height
    ensures PixelWindow(p, w, w).1.Lo(b.width) == Max(p.col - w, 0)
    ensures PixelWindow(p, w, w).1.Hi(b.width) == if p.col + w < b.width then p.col + w else b.width
    ensures InWindow(b, p, w, p) <==> w >= 1
  {
  }

  /** A cell outside the window of p is at Chebyshev distance at least w from p. */
  lemma OutsideWindowIsFar(b: Band, p: Pixel, w: int, q: Pixel)
    requires b.Contains(p) && b.Contains(q) && !InWindow(b, p, w, q)
    ensures Chebyshev(p, q) >= w
  {
    if w > 0 {
      PixelWindowBounds(b, p, w);
    }
  }

  /** Cell q has been cleared from the mask by the window of one of `selected`. */
  predicate Cleared(b: Band, w: int, selected: seq<Pixel>, q: Pixel) {
    selected != [] &&
    (Cleared(b, w, selected[..|selected| - 1], q) || InWindow(b, selected[|selected| - 1], w, q))
  }

  lemma {:induction false} ClearedIff(b: Band, w: int, selected: seq<Pixel>, q: Pixel)
    ensures Cleared(b, w, selected, q) <==> exists i :: 0 <= i < |selected| && InWindow(b, selected[i], w, q)
  {
    if selected != [] {
      var front := selected[..|selected| - 1];
      ClearedIff(b, w, front, q);
      if Cleared(b, w, front, q) {
        var i :| 0 <= i < |front| && InWindow(b, front[i], w, q);
        assert selected[i] == front[i];
      }
      if i :| 0 <= i < |selected| && InWindow(b, selected[i], w, q) {
        if i < |front| {
          assert front[i] == selected[i];
        }
      }
    }
  }

  /** The mask entry of q while `selected` have been selected: it started as
      `band > threshold` and each selection cleared its window. */
  predicate MaskEntry(b: Band, w: int, t: real, selected: seq<Pixel>, q: Pixel)
    requires b.Valid() && b.Contains(q)
  {
    b.At(q) > t && !Cleared(b, w, selected, q)
  }

  /** Selecting p clears exactly the cells of its window: the mask entry of q
      after the selection is the entry before it, cleared when q is in p's window. */
  lemma MaskEntryAppend(b: Band, w: int, t: real, selected: seq<Pixel>, p: Pixel, q: Pixel)
    requires b.Valid() && b.Contains(q)
    ensures MaskEntry(b, w, t, selected + [p], q) == (MaskEntry(b, w, t, selected, q) && !InWindow(b, p, w, q))
  {
    assert (selected + [p])[..|selected|] == selected;
  }

  /** With w >= 1 the window of p holds p, so the raw value recorded for p is
      at least p's own positive value. */
  lemma RawValueAtLeastPixel(b: Band, p: Pixel, w: int)
    requires b.Valid() && b.Contains(p) && w >= 1
    ensures RawValue(b, p, w) >= Positive(b.At(p))
  {
    PixelWindowBounds(b, p, w);
    var (rows, cols) := PixelWindow(p, w, w);
    RegionPositiveSumAtLeastCell(b, rows.Lo(b.height), rows.Hi(b.height), cols.Lo(b.width), cols.Hi(b.width), p);
  }

  /** The three lists `_select_next_pixel` appends to: `_selected_indexes`,
      `selected_pixels` and `_raw_pixel_values`. */
  datatype Selection = Selection(indexes: seq<nat>, pixels: seq<Pixel>, raw: seq<real>)

  /** Visiting the cell p at sorted index idx: `_select_next_pixel` appends it
      when its mask entry is still true, otherwise nothing changes. */
  function Visit(b: Band, w: int, t: real, s: Selection, idx: nat, p: Pixel): (r: Selection)
    requires b.Valid() && b.Contains(p)
    ensures |s.indexes| == |s.pixels| == |s.raw| ==> |r.indexes| == |r.pixels| == |r.raw|
    ensures AllIn(b, s.pixels) ==> AllIn(b, r.pixels)
  {
    if MaskEntry(b, w, t, s.pixels, p)
    then Selection(s.indexes + [idx], s.pixels + [p], s.raw + [RawValue(b, p, w)])
    else s
  }

  /** The selections made after visiting order[..k]. */
  function Walk(b: Band, order: seq<Pixel>, w: int, t: real, k: nat): (s: Selection)
    requires b.Valid() && AllIn(b, order) && k <= |order|
    ensures |s.indexes| == |s.pixels| == |s.raw| && AllIn(b, s.pixels)
  {
    if k == 0 then Selection([], [], [])
    else Visit(b, w, t, Walk(b, order, w, t, k - 1), k - 1, order[k - 1])
  }

  /** The sorted indexes are below k and strictly increase, and each selected
      pixel is the cell at its sorted index. */
  ghost predicate IndexesAlign(order: seq<Pixel>, k: nat, s: Selection) {
    k <= |order| && |s.indexes| == |s.pixels| &&
    (forall i :: 0 <= i < |s.indexes| ==> s.indexes[i] < k && s.pixels[i] == order[s.indexes[i]]) &&
    (forall i, j :: 0 <= i < j < |s.indexes| ==> s.indexes[i] < s.indexes[j])
  }

  /** Each raw value is the positive mass of its pixel's window and is >= 0. */
  ghost predicate RawIsWindowMass(b: Band, w: int, s: Selection)
    requires b.Valid()
  {
    |s.raw| == |s.pixels| &&
    forall i :: 0 <= i < |s.raw| ==> s.raw[i] == RawValue(b, s.pixels[i], w) && s.raw[i] >= 0.0
  }

  /** Every pixel lies in the band and has a value above the threshold. */
  ghost predicate AboveThreshold(b: Band, t: real, pixels: seq<Pixel>) {
    b.Valid() && forall i :: 0 <= i < |pixels| ==> b.Contains(pixels[i]) && b.At(pixels[i]) > t
  }

  /** No pixel lies in the window of a pixel listed before it. */
  ghost predicate Excluding(b: Band, w: int, pixels: seq<Pixel>) {
    forall i, j :: 0 <= i < j < |pixels| ==> !InWindow(b, pixels[i], w, pixels[j])
  }

  /** Any two pixels are at Chebyshev distance at least w. */
  ghost predicate Separated(w: int, pixels: seq<Pixel>) {
    forall i, j :: 0 <= i < |pixels| && 0 <= j < |pixels| && i != j ==> Chebyshev(pixels[i], pixels[j]) >= w
  }

  /** Some pixel selected at a sorted index below m has q in its window. */
  ghost predicate CoveredBefore(b: Band, w: int, s: Selection, m: nat, q: Pixel) {
    exists i :: 0 <= i < |s.indexes| && i < |s.pixels| && s.indexes[i] < m && InWindow(b, s.pixels[i], w, q)
  }

  /** s1 is what s2 was before some further appends. */
  ghost predicate PrefixOf(s1: Selection, s2: Selection) {
    s1.indexes <= s2.indexes && s1.pixels <= s2.pixels && s1.raw <= s2.raw
  }

  /** One step of the walk, unfolded. */
  lemma WalkStep(b: Band, order: seq<Pixel>, w: int, t: real, k: nat)
    requires b.Valid() && AllIn(b, order) && 0 < k <= |order|
    ensures MaskEntry(b, w, t, Walk(b, order, w, t, k - 1).pixels, order[k - 1]) ==>
      Walk(b, order, w, t, k) == Selection(Walk(b, order, w, t, k - 1).indexes + [k - 1],
                                           Walk(b, order, w, t, k - 1).pixels + [order[k - 1]],
                                           Walk(b, order, w, t, k - 1).raw + [RawValue(b, order[k - 1], w)])
    ensures !MaskEntry(b, w, t, Walk(b, order, w, t, k - 1).pixels, order[k - 1]) ==>
      Walk(b, order, w, t, k) == Walk(b, order, w, t, k - 1)
  {
  }

  /** One step of the walk, on the selected pixels alone. */
  lemma WalkPixelsStep(b: Band, order: seq<Pixel>, w: int, t: real, k: nat)
    requires b.Valid() && AllIn(b, order) && 0 < k <= |order|
    ensures Walk(b, order, w, t, k).pixels ==
      if MaskEntry(b, w, t, Walk(b, order, w, t, k - 1).pixels, order[k - 1])
      then Walk(b, order, w, t, k - 1).pixels + [order[k - 1]]
      else Walk(b, order, w, t, k - 1).pixels
  {
  }

  /** The sorted indexes strictly increase and each selected pixel is the cell
      at its sorted index. */
  lemma {:induction false} WalkIndexes(b: Band, order: seq<Pixel>, w: int, t: real, k: nat)
    requires b.Valid() && AllIn(b, order) && k <= |order|
    ensures IndexesAlign(order, k, Walk(b, order, w, t, k))
  {
    if k > 0 {
      var prev := Walk(b, order, w, t, k - 1);
      WalkIndexes(b, order, w, t, k - 1);
      if MaskEntry(b, w, t, prev.pixels, order[k - 1]) {
        var s := Selection(prev.indexes + [k - 1], prev.pixels + [order[k - 1]], prev.raw + [RawValue(b, order[k - 1], w)]);
        assert Walk(b, order, w, t, k) == s;
        forall i | 0 <= i < |s.indexes|
          ensures s.indexes[i] < k && s.pixels[i] == order[s.indexes[i]]
        {
          if i < |prev.indexes| {
            assert s.indexes[i] == prev.indexes[i] && s.pixels[i] == prev.pixels[i];
          }
        }
        forall i, j | 0 <= i < j < |s.indexes|
          ensures s.indexes[i] < s.indexes[j]
        {
          assert s.indexes[i] == prev.indexes[i];
          if j < |prev.indexes| {
            assert s.indexes[j] == prev.indexes[j];
          }
        }
        assert IndexesAlign(order, k, s);
      } else {
        assert Walk(b, order, w, t, k) == prev;
      }
    }
  }

  /** Each raw value is the positive mass of its pixel's window, hence >= 0. */
  lemma {:induction false} WalkRawValues(b: Band, order: seq<Pixel>, w: int, t: real, k: nat)
    requires b.Valid() && AllIn(b, order) && k <= |order|
    ensures RawIsWindowMass(b, w, Walk(b, order, w, t, k))
  {
    if k > 0 {
      var prev, s := Walk(b, order, w, t, k - 1), Walk(b, order, w, t, k);
      WalkRawValues(b, order, w, t, k - 1);
      WalkStep(b, order, w, t, k);
      if s != prev {
        forall i | 0 <= i < |s.raw|
          ensures s.raw[i] == RawValue(b, s.pixels[i], w) && s.raw[i] >= 0.0
        {
          if i < |prev.raw| {
            assert s.raw[i] == prev.raw[i] && s.pixels[i] == prev.pixels[i];
          }
        }
      }
    }
  }

  /** Walking further only appends: an earlier state is a prefix of a later one. */
  lemma {:induction false} WalkPrefix(b: Band, order: seq<Pixel>, w: int, t: real, k1: nat, k2: nat)
    requires b.Valid() && AllIn(b, order) && k1 <= k2 <= |order|
    ensures PrefixOf(Walk(b, order, w, t, k1), Walk(b, order, w, t, k2))
    decreases k2 - k1
  {
    if k1 < k2 {
      WalkPrefix(b, order, w, t, k1, k2 - 1);
      WalkStep(b, order, w, t, k2);
    }
  }

  lemma {:induction false} ClearedPrefix(b: Band, w: int, front: seq<Pixel>, selected: seq<Pixel>, q: Pixel)
    requires front <= selected
    ensures Cleared(b, w, front, q) ==> Cleared(b, w, selected, q)
  {
    ClearedIff(b, w, front, q);
    ClearedIff(b, w, selected, q);
    if Cleared(b, w, front, q) {
      var i :| 0 <= i < |front| && InWindow(b, front[i], w, q);
      assert selected[i] == front[i];
    }
  }

  /** Mask entries only ever change from true to false: a cell eligible after
      visiting k2 cells was eligible after visiting any k1 <= k2. */
  lemma MaskMonotone(b: Band, order: seq<Pixel>, w: int, t: real, k1: nat, k2: nat, q: Pixel)
    requires b.Valid() && AllIn(b, order) && k1 <= k2 <= |order| && b.Contains(q)
    ensures MaskEntry(b, w, t, Walk(b, order, w, t, k2).pixels, q)
        ==> MaskEntry(b, w, t, Walk(b, order, w, t, k1).pixels, q)
  {
    WalkPrefix(b, order, w, t, k1, k2);
    ClearedPrefix(b, w, Walk(b, order, w, t, k1).pixels, Walk(b, order, w, t, k2).pixels, q);
  }

  /** The cell at sorted index m is selected in s exactly when its value
      exceeds the threshold and no selection before m covers it. */
  ghost predicate Verdict(b: Band, w: int, t: real, order: seq<Pixel>, s: Selection, m: nat)
    requires b.Valid() && AllIn(b, order) && m < |order|
  {
    m in s.indexes <==> b.At(order[m]) > t && !CoveredBefore(b, w, s, m, order[m])
  }

  /** Visiting a later cell changes neither whether the cell at sorted index m
      was selected nor which selections before m cover it, so the verdict on m
      carries over. */
  lemma LaterVisitKeepsVerdict(b: Band, order: seq<Pixel>, w: int, t: real, k: nat, m: nat)
    requires b.Valid() && AllIn(b, order) && m < k - 1 && k <= |order|
    ensures Verdict(b, w, t, order, Walk(b, order, w, t, k - 1), m) ==> Verdict(b, w, t, order, Walk(b, order, w, t, k), m)
  {
    var prev := Walk(b, order, w, t, k - 1);
    WalkIndexes(b, order, w, t, k - 1);
    if MaskEntry(b, w, t, prev.pixels, order[k - 1]) {
      var s := Selection(prev.indexes + [k - 1], prev.pixels + [order[k - 1]], prev.raw + [RawValue(b, order[k - 1], w)]);
      assert Walk(b, order, w, t, k) == s;
      CoveredAppend(b, w, prev, s, m, order[m]);
      assert m in s.indexes <==> m in prev.indexes;
    } else {
      assert Walk(b, order, w, t, k) == prev;
    }
  }

  /** The cell visited last is selected exactly when its value exceeds the
      threshold and no earlier selection covers it. */
  lemma LastVisitVerdict(b: Band, order: seq<Pixel>, w: int, t: real, k: nat)
    requires b.Valid() && AllIn(b, order) && 0 < k <= |order|
    ensures k - 1 in Walk(b, order, w, t, k).indexes
       <==> b.At(order[k - 1]) > t && !CoveredBefore(b, w, Walk(b, order, w, t, k), k - 1, order[k - 1])
  {
    var prev := Walk(b, order, w, t, k - 1);
    var q := order[k - 1];
    WalkIndexes(b, order, w, t, k - 1);
    if MaskEntry(b, w, t, prev.pixels, q) {
      var s := Selection(prev.indexes + [k - 1], prev.pixels + [q], prev.raw + [RawValue(b, q, w)]);
      assert Walk(b, order, w, t, k) == s;
      CoveredAppend(b, w, prev, s, k - 1, q);
      CoveredIsCleared(b, w, prev, k - 1, q);
      assert s.indexes[|prev.indexes|] == k - 1;
    } else {
      assert Walk(b, order, w, t, k) == prev;
      ClearedIff(b, w, prev.pixels, q);
      assert k - 1 !in prev.indexes;
      if i :| 0 <= i < |prev.pixels| && InWindow(b, prev.pixels[i], w, q) {
        assert prev.indexes[i] < k - 1;
      }
    }
  }

  /** Which visited cells are selected, exactly: the cell at sorted index m is
      selected if and only if its value exceeds the threshold and no pixel
      selected before it has it in its window. */
  lemma {:induction false} WalkSelectsExactly(b: Band, order: seq<Pixel>, w: int, t: real, k: nat, m: nat)
    requires b.Valid() && AllIn(b, order) && m < k <= |order|
    ensures m in Walk(b, order, w, t, k).indexes
       <==> b.At(order[m]) > t && !CoveredBefore(b, w, Walk(b, order, w, t, k), m, order[m])
  {
    if m < k - 1 {
      WalkSelectsExactly(b, order, w, t, k - 1, m);
      LaterVisitKeepsVerdict(b, order, w, t, k, m);
    } else {
      LastVisitVerdict(b, order, w, t, k);
    }
  }

  lemma CoveredIsCleared(b: Band, w: int, s: Selection, m: nat, q: Pixel)
    requires |s.indexes| == |s.pixels|
    ensures CoveredBefore(b, w, s, m, q) ==> Cleared(b, w, s.pixels, q)
  {
    ClearedIff(b, w, s.pixels, q);
  }

  /** Appending a later index does not change which earlier cells are covered. */
  lemma CoveredAppend(b: Band, w: int, prev: Selection, s: Selection, m: nat, q: Pixel)
    requires |prev.indexes| == |prev.pixels| && |s.indexes| == |prev.indexes| + 1 && |s.pixels| == |s.indexes|
    requires s.indexes[..|prev.indexes|] == prev.indexes && s.pixels[..|prev.pixels|] == prev.pixels
    requires s.indexes[|prev.indexes|] >= m
    ensures CoveredBefore(b, w, s, m, q) <==> CoveredBefore(b, w, prev, m, q)
  {
    if CoveredBefore(b, w, s, m, q) {
      var i :| 0 <= i < |s.indexes| && i < |s.pixels| && s.indexes[i] < m && InWindow(b, s.pixels[i], w, q);
      assert s.indexes[..|prev.indexes|][i] == prev.indexes[i];
      assert s.pixels[..|prev.pixels|][i] == prev.pixels[i];
    }
    if CoveredBefore(b, w, prev, m, q) {
      var i :| 0 <= i < |prev.indexes| && i < |prev.pixels| && prev.indexes[i] < m && InWindow(b, prev.pixels[i], w, q);
      assert s.indexes[..|prev.indexes|][i] == s.indexes[i];
      assert s.pixels[..|prev.pixels|][i] == s.pixels[i];
    }
  }

  /** Threshold: every selected pixel's band value exceeds the threshold. */
  lemma {:induction false} WalkAboveThreshold(b: Band, order: seq<Pixel>, w: int, t: real, k: nat)
    requires b.Valid() && AllIn(b, order) && k <= |order|
    ensures AboveThreshold(b, t, Walk(b, order, w, t, k).pixels)
  {
    if k > 0 {
      var prev, s := Walk(b, order, w, t, k - 1), Walk(b, order, w, t, k);
      WalkAboveThreshold(b, order, w, t, k - 1);
      WalkStep(b, order, w, t, k);
      if s != prev {
        forall i | 0 <= i < |s.pixels|
          ensures b.Contains(s.pixels[i]) && b.At(s.pixels[i]) > t
        {
          if i < |prev.pixels| {
            assert s.pixels[i] == prev.pixels[i];
          }
        }
      }
    }
  }

  /** A pixel whose mask entry is still set lies outside the windows of all
      earlier pixels, so appending it keeps exclusion. */
  lemma SelectKeepsExcluding(b: Band, w: int, t: real, pixels: seq<Pixel>, p: Pixel)
    requires b.Valid() && b.Contains(p)
    ensures Excluding(b, w, pixels) && MaskEntry(b, w, t, pixels, p) ==> Excluding(b, w, pixels + [p])
  {
    if Excluding(b, w, pixels) && MaskEntry(b, w, t, pixels, p) {
      ClearedIff(b, w, pixels, p);
      var s := pixels + [p];
      forall i, j | 0 <= i < j < |s|
        ensures !InWindow(b, s[i], w, s[j])
      {
        assert s[i] == pixels[i];
        if j < |pixels| {
          assert s[j] == pixels[j];
        }
      }
    }
  }

  /** Exclusion: no selected pixel lies in the window of a pixel selected before it. */
  lemma {:induction false} WalkExclusion(b: Band, order: seq<Pixel>, w: int, t: real, k: nat)
    requires b.Valid() && AllIn(b, order) && k <= |order|
    ensures Excluding(b, w, Walk(b, order, w, t, k).pixels)
  {
    if k > 0 {
      var prev := Walk(b, order, w, t, k - 1);
      WalkExclusion(b, order, w, t, k - 1);
      WalkPixelsStep(b, order, w, t, k);
      if MaskEntry(b, w, t, prev.pixels, order[k - 1]) {
        SelectKeepsExcluding(b, w, t, prev.pixels, order[k - 1]);
      }
    }
  }

  /** Any two selected pixels are at Chebyshev distance at least the mask width. */
  lemma WalkSeparation(b: Band, order: seq<Pixel>, w: int, t: real, k: nat)
    requires b.Valid() && AllIn(b, order) && k <= |order|
    ensures Separated(w, Walk(b, order, w, t, k).pixels)
  {
    var pixels := Walk(b, order, w, t, k).pixels;
    WalkExclusion(b, order, w, t, k);
    forall i, j | 0 <= i < |pixels| && 0 <= j < |pixels| && i != j
      ensures Chebyshev(pixels[i], pixels[j]) >= w
    {
      if i < j {
        OutsideWindowIsFar(b, pixels[i], w, pixels[j]);
      } else {
        OutsideWindowIsFar(b, pixels[j], w, pixels[i]);
      }
    }
  }

  /** Along a descending order the selected pixels come out in non-increasing
      value order. */
  lemma WalkDescending(b: Band, order: seq<Pixel>, w: int, t: real, k: nat)
    requires NonIncreasing(b, order) && k <= |order|
    ensures NonIncreasing(b, Walk(b, order, w, t, k).pixels)
  {
    WalkIndexes(b, order, w, t, k);
  }

  /** The window is lopsided along each axis: it reaches w cells back but
      stops one short of w cells forward. The cell w rows below p is never in
      p's window; the cell w rows above p, when it exists, always is. */
  lemma WindowAsymmetry(b: Band, p: Pixel, w: int)
    requires b.Contains(p) && w >= 1
    ensures !InWindow(b, p, w, Pixel(p.row + w, p.col))
    ensures b.Contains(Pixel(p.row - w, p.col)) ==> InWindow(b, p, w, Pixel(p.row - w, p.col))
    ensures !InWindow(b, p, w, Pixel(p.row, p.col + w))
    ensures b.Contains(Pixel(p.row, p.col - w)) ==> InWindow(b, p, w, Pixel(p.row, p.col - w))
  {
    PixelWindowBounds(b, p, w);
  }

  /** Example: a run of the walk on a 2 x 1 band whose top cell is larger, with mask
      width 1: the bottom cell lies at r + w, just past the exclusive upper end
      of the top cell's window, so both adjacent cells are selected. */
  lemma AdjacentBelowIsSelected()
    ensures var b := Band(2, 1, [[5.0], [4.0]]);
      b.Valid() && AllIn(b, [Pixel(0, 0), Pixel(1, 0)]) &&
      Walk(b, [Pixel(0, 0), Pixel(1, 0)], 1, 1.0, 2).pixels == [Pixel(0, 0), Pixel(1, 0)]
  {
    var b := Band(2, 1, [[5.0], [4.0]]);
    var order := [Pixel(0, 0), Pixel(1, 0)];
    assert !InWindow(b, Pixel(0, 0), 1, Pixel(1, 0));
    assert Walk(b, order, 1, 1.0, 1).pixels == [Pixel(0, 0)];
    assert !Cleared(b, 1, [Pixel(0, 0)], Pixel(1, 0));
  }

  /** Example: on the row [3, 2, 1.5] with mask width 1 and threshold 1, every
      cell's right-hand neighbour lies just past its window, so all three
      adjacent cells are selected: only w - 1 = 0 cells lie between two
      selections. */
  lemma AdjacentRowAllSelected()
    ensures var b := Band(1, 3, [[3.0, 2.0, 1.5]]);
      var order := [Pixel(0, 0), Pixel(0, 1), Pixel(0, 2)];
      b.Valid() && AllIn(b, order) &&
      Walk(b, order, 1, 1.0, 3).pixels == order
  {
    var b := Band(1, 3, [[3.0, 2.0, 1.5]]);
    var order := [Pixel(0, 0), Pixel(0, 1), Pixel(0, 2)];
    assert !InWindow(b, Pixel(0, 0), 1, Pixel(0, 1));
    assert Walk(b, order, 1, 1.0, 1).pixels == [Pixel(0, 0)];
    assert !Cleared(b, 1, [Pixel(0, 0)], Pixel(0, 1));
    assert Walk(b, order, 1, 1.0, 2).pixels == [Pixel(0, 0), Pixel(0, 1)];
    assert !InWindow(b, Pixel(0, 0), 1, Pixel(0, 2)) && !InWindow(b, Pixel(0, 1), 1, Pixel(0, 2));
    assert !Cleared(b, 1, [Pixel(0, 0), Pixel(0, 1)], Pixel(0, 2));
  }

  /** Example, the mirror image: when the bottom cell is larger, its window reaches
      r - w and clears the top cell, so only one cell is selected. */
  lemma AdjacentAboveIsCleared()
    ensures var b := Band(2, 1, [[4.0], [5.0]]);
      b.Valid() && AllIn(b, [Pixel(1, 0), Pixel(0, 0)]) &&
      Walk(b, [Pixel(1, 0), Pixel(0, 0)], 1, 1.0, 2).pixels == [Pixel(1, 0)]
  {
    var b := Band(2, 1, [[4.0], [5.0]]);
    var order := [Pixel(1, 0), Pixel(0, 0)];
    assert InWindow(b, Pixel(1, 0), 1, Pixel(0, 0));
    assert Walk(b, order, 1, 1.0, 1).pixels == [Pixel(1, 0)];
    assert Cleared(b, 1, [Pixel(1, 0)], Pixel(0, 0));
  }
}
