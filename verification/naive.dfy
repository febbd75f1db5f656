/** `NaiveUnrasterizer`: keeps the `n_pixels` cells with the largest values,
    wherever they are. */
module Naive {
  import opened Raster
  import opened PixelOrder
  import opened Base

  /** `list(range(0, n))`. */
  function Range(n: int): (r: seq<nat>)
    ensures |r| == if n > 0 then n else 0
    ensures forall i :: 0 <= i < |r| ==> r[i] == i
  {
    if n <= 0 then [] else Range(n - 1) + [n - 1]
  }

  /** `sorted_pixels[indexes]`: numpy indexing by a list of positions, which
      raises IndexError when one of them is past the end. */
  function Gather(order: seq<Pixel>, indexes: seq<nat>): (r: Option<seq<Pixel>>)
    ensures r.None? <==> exists i :: 0 <= i < |indexes| && indexes[i] >= |order|
    ensures r.Some? ==> |r.value| == |indexes|
    ensures r.Some? ==> forall i :: 0 <= i < |indexes| ==> indexes[i] < |order| && r.value[i] == order[indexes[i]]
  {
    if forall i :: 0 <= i < |indexes| ==> indexes[i] < |order|
    then Some(seq(|indexes|, i requires 0 <= i < |indexes| => order[indexes[i]]))
    else None
  }

  /** Gathering `range(0, n)` fails exactly when n exceeds the number of cells,
      and otherwise yields the first n cells of the order (none when n <= 0). */
  lemma GatherRange(order: seq<Pixel>, n: int)
    ensures Gather(order, Range(n)).None? <==> n > |order|
    ensures n <= |order| ==> Gather(order, Range(n)) == Some(order[..if n > 0 then n else 0])
  {
    var idx := Range(n);
    if n > |order| {
      assert idx[|order|] == |order|;
    } else {
      var r := Gather(order, idx);
      assert r.value == order[..|idx|];
    }
  }

  /** Gathering the first n positions of the band's descending order fails
      exactly when n exceeds the number of cells, and otherwise yields cells
      of the band. */
  lemma GatherTop(b: Band, n: int)
    requires b.Valid()
    ensures Gather(SortPixels(b), Range(n)).None? <==> n > b.height * b.width
    ensures n <= b.height * b.width ==>
      Gather(SortPixels(b), Range(n)) == Some(SortPixels(b)[..if n > 0 then n else 0]) &&
      AllIn(b, SortPixels(b)[..if n > 0 then n else 0])
  {
    var order := SortPixels(b);
    assert |order| == b.height * b.width;
    GatherRange(order, n);
    if n <= |order| {
      var top := order[..if n > 0 then n else 0];
      forall i | 0 <= i < |top| ensures b.Contains(top[i]) {
        assert top[i] == order[i];
      }
    }
  }

  /** The top-K property: when n cells are kept out of a descending order, none
      of the cells left behind has a larger value than a kept one. */
  lemma TopCellsAreLargest(b: Band, order: seq<Pixel>, n: nat, i: nat, q: Pixel)
    requires IsDescendingOrder(b, order) && n <= |order| && i < n
    requires b.Contains(q) && q !in order[..n]
    ensures b.At(order[i]) >= b.At(q)
  {
    DescendingOrderIsPermutation(b, order);
    var j :| 0 <= j < |order| && order[j] == q;
  }

  class NaiveUnrasterizer {
    const nPixels: int
    var selectedIndexes: seq<nat>
    var selectedPixels: seq<Pixel>
    var selectedValues: seq<Value>
    var selectedCoords: seq<Coord>

    constructor(nPixels: int)
      ensures this.nPixels == nPixels
      ensures selectedIndexes == [] && selectedPixels == [] && selectedValues == [] && selectedCoords == []
    {
      this.nPixels := nPixels;
      selectedIndexes, selectedPixels, selectedValues, selectedCoords := [], [], [], [];
    }

    /** `select_representative_pixels(raster_data)` on the raster's first band
        `b`, with the raster's affine transform as `xy`. The index list is
        stored before the lookup that raises IndexError when `n_pixels` is
        larger than the band; on that error the other lists keep their old
        contents. */
    method SelectRepresentativePixels(b: Band, xy: (int, int) -> Coord) returns (status: Status)
      requires b.Valid()
      modifies this
      ensures selectedIndexes == Range(nPixels)
      ensures status == Ok || status == IndexError
      ensures status == IndexError <==> nPixels > b.height * b.width
      ensures status == Ok ==>
        selectedPixels == SortPixels(b)[..if nPixels > 0 then nPixels else 0] &&
        selectedValues == ReassignPixelValues(b, selectedPixels, []) &&
        selectedCoords == GetCoordinates(xy, selectedPixels, 0, 0)
      ensures status == IndexError ==>
        selectedPixels == old(selectedPixels) && selectedValues == old(selectedValues) &&
        selectedCoords == old(selectedCoords)
    {
      selectedIndexes := Range(nPixels);
      var gathered := Gather(SortPixels(b), selectedIndexes);
      GatherTop(b, nPixels);
      if gathered.None? {
        return IndexError;
      }
      selectedPixels := gathered.value;
      selectedValues := ReassignPixelValues(b, selectedPixels, []);
      selectedCoords := GetCoordinates(xy, selectedPixels, 0, 0);
      status := Ok;
    }
  }

  /** On success the naive selector keeps exactly `n_pixels` cells, values and
      coordinates, and every kept cell is at least as large as every cell it
      leaves out. */
  lemma NaiveKeepsTopCells(b: Band, n: nat, i: nat, q: Pixel)
    requires b.Valid() && n <= b.height * b.width && i < n
    requires b.Contains(q) && q !in SortPixels(b)[..n]
    ensures |SortPixels(b)[..n]| == |ReassignPixelValues(b, SortPixels(b)[..n], [])| == n
    ensures b.At(SortPixels(b)[i]) >= b.At(q)
  {
    var order := SortPixels(b);
    assert AllIn(b, order[..n]) by {
      forall k | 0 <= k < n ensures b.Contains(order[..n][k]) {
        assert order[..n][k] == order[k];
      }
    }
    TopCellsAreLargest(b, order, n, i, q);
  }
}
