/** `BaseUnrasterizer._sort_pixels`: every cell of a band, ordered by
    non-increasing value. */
module PixelOrder {
  import opened Raster

  /** Every pixel of `s` lies inside the band. */
  predicate AllIn(b: Band, s: seq<Pixel>) {
    forall i :: 0 <= i < |s| ==> b.Contains(s[i])
  }

  /** The band values along `s` never increase. */
  ghost predicate NonIncreasing(b: Band, s: seq<Pixel>) {
    b.Valid() && AllIn(b, s) &&
    forall i, j :: 0 <= i < j < |s| ==> b.At(s[i]) >= b.At(s[j])
  }

  /** What `_sort_pixels` promises of its result, whatever order the sort puts
      equal values in: all H*W cells, each in-bounds cell exactly once, values
      non-increasing. */
  ghost predicate IsDescendingOrder(b: Band, order: seq<Pixel>) {
    |order| == b.height * b.width &&
    NonIncreasing(b, order) &&
    forall p :: b.Contains(p) ==> Occurrences(order, p) == 1
  }

  /** Cells (r, 0) .. (r, w - 1). */
  function RowCells(r: nat, w: nat): (s: seq<Pixel>)
    ensures |s| == w
  {
    if w == 0 then [] else RowCells(r, w - 1) + [Pixel(r, w - 1)]
  }

  /** All cells of an h-by-w band in row-major order, the order of `np.ravel`. */
  function AllCells(h: nat, w: nat): (s: seq<Pixel>)
  {
    if h == 0 then [] else AllCells(h - 1, w) + RowCells(h - 1, w)
  }

  lemma {:induction false} AllCellsLength(h: nat, w: nat)
    ensures |AllCells(h, w)| == h * w
  {
    if h > 0 {
      AllCellsLength(h - 1, w);
      assert (h - 1) * w + w == h * w;
    }
  }

  /** Number of occurrences of `p` in `s`. */
  function Occurrences(s: seq<Pixel>, p: Pixel): nat {
    if s == [] then 0 else Occurrences(s[..|s| - 1], p) + (if s[|s| - 1] == p then 1 else 0)
  }

  lemma {:induction false} OccurrencesIsMultiplicity(s: seq<Pixel>, p: Pixel)
    ensures Occurrences(s, p) == multiset(s)[p]
  {
    if s != [] {
      OccurrencesIsMultiplicity(s[..|s| - 1], p);
      assert s == s[..|s| - 1] + [s[|s| - 1]];
    }
  }

  lemma {:induction false} OccurrencesConcat(a: seq<Pixel>, b: seq<Pixel>, p: Pixel)
    ensures Occurrences(a + b, p) == Occurrences(a, p) + Occurrences(b, p)
    decreases |b|
  {
    if b != [] {
      var ab := a + b;
      assert ab[..|ab| - 1] == a + b[..|b| - 1];
      assert ab[|ab| - 1] == b[|b| - 1];
      OccurrencesConcat(a, b[..|b| - 1], p);
    } else {
      assert a + b == a;
    }
  }

  /** `p` is one of the cells (r, 0) .. (r, w - 1). */
  predicate InRow(p: Pixel, r: int, w: int) {
    p.row == r && 0 <= p.col < w
  }

  /** `p` is a cell of an h-by-w grid. */
  predicate InGrid(p: Pixel, h: int, w: int) {
    0 <= p.row < h && 0 <= p.col < w
  }

  lemma {:induction false} RowCellsOnce(r: nat, w: nat, p: Pixel)
    ensures Occurrences(RowCells(r, w), p) == if InRow(p, r, w) then 1 else 0
  {
    if w > 0 {
      RowCellsOnce(r, w - 1, p);
      OccurrencesConcat(RowCells(r, w - 1), [Pixel(r, w - 1)], p);
      assert [Pixel(r, w - 1)][..0] == [];
    }
  }

  /** Two counts of at most one, for two cases that exclude each other, add up to at most one. */
  lemma DisjointCounts(x: nat, y: nat, a: bool, b: bool)
    requires x == (if a then 1 else 0) && y == (if b then 1 else 0) && !(a && b)
    ensures x + y == if a || b then 1 else 0
  {
  }

  lemma {:induction false} AllCellsOccurrences(h: nat, w: nat, p: Pixel)
    ensures Occurrences(AllCells(h, w), p) == if InGrid(p, h, w) then 1 else 0
  {
    if h > 0 {
      var front, row := AllCells(h - 1, w), RowCells(h - 1, w);
      AllCellsOccurrences(h - 1, w, p);
      RowCellsOnce(h - 1, w, p);
      OccurrencesConcat(front, row, p);
      assert AllCells(h, w) == front + row;
      assert InGrid(p, h, w) == (InGrid(p, h - 1, w) || InRow(p, h - 1, w));
      DisjointCounts(Occurrences(front, p), Occurrences(row, p), InGrid(p, h - 1, w), InRow(p, h - 1, w));
    }
  }

  /** The flattened index list holds every in-bounds cell exactly once and nothing else. */
  lemma AllCellsOnce(h: nat, w: nat, p: Pixel)
    ensures multiset(AllCells(h, w))[p] == if InGrid(p, h, w) then 1 else 0
  {
    AllCellsOccurrences(h, w, p);
    OccurrencesIsMultiplicity(AllCells(h, w), p);
  }

  /** Inserts `p` in front of the first cell of `s` whose value is smaller. */
  function Insert(b: Band, p: Pixel, s: seq<Pixel>): (r: seq<Pixel>)
    requires b.Valid() && b.Contains(p) && AllIn(b, s)
    ensures multiset(r) == multiset(s) + multiset{p}
    ensures |r| == |s| + 1 && AllIn(b, r)
  {
    if s == [] || b.At(p) >= b.At(s[0]) then [p] + s
    else
      var t := Insert(b, p, s[1..]);
      assert s == [s[0]] + s[1..];
      [s[0]] + t
  }

  /** A cell no smaller than the head of a non-increasing list can go in front of it. */
  lemma ConsKeepsOrder(b: Band, x: Pixel, t: seq<Pixel>)
    requires NonIncreasing(b, t) && b.Contains(x) && (t != [] ==> b.At(x) >= b.At(t[0]))
    ensures NonIncreasing(b, [x] + t)
  {
    var r := [x] + t;
    forall i, j | 0 <= i < j < |r|
      ensures b.At(r[i]) >= b.At(r[j])
    {
      assert r[j] == t[j - 1];
      if i > 0 {
        assert r[i] == t[i - 1];
      } else if j > 1 {
        assert b.At(t[0]) >= b.At(t[j - 1]);
      }
    }
  }

  /** Inserting keeps the order non-increasing; the new head is `p` or the old head. */
  lemma {:induction false} InsertKeepsOrder(b: Band, p: Pixel, s: seq<Pixel>)
    requires b.Valid() && b.Contains(p) && NonIncreasing(b, s)
    ensures NonIncreasing(b, Insert(b, p, s))
    ensures Insert(b, p, s)[0] == p || (s != [] && Insert(b, p, s)[0] == s[0])
  {
    if s == [] || b.At(p) >= b.At(s[0]) {
      ConsKeepsOrder(b, p, s);
    } else {
      var t := Insert(b, p, s[1..]);
      assert NonIncreasing(b, s[1..]);
      InsertKeepsOrder(b, p, s[1..]);
      assert t[0] == p || t[0] == s[1];
      ConsKeepsOrder(b, s[0], t);
    }
  }

  /** Insertion sort by non-increasing value; cells of equal value keep their
      row-major order. */
  function SortDesc(b: Band, s: seq<Pixel>): (r: seq<Pixel>)
    requires b.Valid() && AllIn(b, s)
    ensures multiset(r) == multiset(s) && |r| == |s|
    ensures NonIncreasing(b, r)
  {
    if s == [] then []
    else
      var t := SortDesc(b, s[1..]);
      InsertKeepsOrder(b, s[0], t);
      assert s == [s[0]] + s[1..];
      Insert(b, s[0], t)
  }

  /** `_sort_pixels(band)`: one descending order of the band's cells, standing
      for the reversed argsort of the flattened band as (row, col) pairs; equal
      values may come out in another order than numpy's. */
  function SortPixels(b: Band): (order: seq<Pixel>)
    requires b.Valid()
    ensures IsDescendingOrder(b, order)
  {
    var cells := AllCells(b.height, b.width);
    assert AllIn(b, cells) by {
      forall i | 0 <= i < |cells| ensures b.Contains(cells[i]) {
        assert cells[i] in multiset(cells);
        AllCellsOnce(b.height, b.width, cells[i]);
      }
    }
    var order := SortDesc(b, cells);
    AllCellsLength(b.height, b.width);
    assert forall p :: b.Contains(p) ==> Occurrences(order, p) == 1 by {
      forall p | b.Contains(p) ensures Occurrences(order, p) == 1 {
        AllCellsOnce(b.height, b.width, p);
        OccurrencesIsMultiplicity(order, p);
      }
    }
    order
  }

  lemma MultisetCountsRepeat(s: seq<Pixel>, i: int, j: int)
    requires 0 <= i < j < |s| && s[i] == s[j]
    ensures multiset(s)[s[i]] >= 2
  {
    assert s == s[..i] + [s[i]] + s[i + 1..j] + [s[j]] + s[j + 1..];
  }

  /** A descending order lists each in-bounds cell exactly once: no cell twice,
      no cell missing. */
  lemma DescendingOrderIsPermutation(b: Band, order: seq<Pixel>)
    requires IsDescendingOrder(b, order)
    ensures forall i, j :: 0 <= i < j < |order| ==> order[i] != order[j]
    ensures forall p :: b.Contains(p) ==> p in order
  {
    forall i, j | 0 <= i < j < |order|
      ensures order[i] != order[j]
    {
      if order[i] == order[j] {
        MultisetCountsRepeat(order, i, j);
        OccurrencesIsMultiplicity(order, order[i]);
      }
    }
    forall p | b.Contains(p)
      ensures p in order
    {
      OccurrencesIsMultiplicity(order, p);
      assert p in multiset(order);
    }
  }
}
