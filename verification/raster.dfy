/** Values shared by every unrasterizer: a raster band, its cells, Python slices
    over its axes and sums of its strictly positive values. */
module Raster {

  datatype Option<T> = None | Some(value: T)

  /** How a call ended: normally, or with the Python exception it raises. */
  datatype Status = Ok | IndexError | ZeroDivisionError | ValueError

  /** A (row, column) index into a band. */
  datatype Pixel = Pixel(row: int, col: int)

  /** A geographic coordinate as produced by the raster's affine transform. */
  datatype Coord = Coord(x: real, y: real)

  /** A rectangle of a larger raster: column and row offset, width and height. */
  datatype Window = Window(colOff: int, rowOff: int, width: int, height: int)

  /** One raster band of shape (height, width), stored row by row. */
  datatype Band = Band(height: nat, width: nat, rows: seq<seq<real>>)
  {
    ghost predicate Valid() {
      |rows| == height && forall r :: 0 <= r < |rows| ==> |rows[r]| == width
    }

    predicate Contains(p: Pixel) {
      0 <= p.row < height && 0 <= p.col < width
    }

    function At(p: Pixel): real
      requires Valid() && Contains(p)
    {
      rows[p.row][p.col]
    }
  }

  /** The part of a value that counts towards positive mass. */
  function Positive(v: real): (r: real)
    ensures r >= 0.0
    ensures r == v || r == 0.0
  {
    if v > 0.0 then v else 0.0
  }

  /** Sum of the strictly positive entries of row[c0..c1]. */
  function RowPositiveSum(row: seq<real>, c0: nat, c1: nat): real
    requires c0 <= c1 <= |row|
    decreases c1 - c0
  {
    if c0 == c1 then 0.0 else RowPositiveSum(row, c0, c1 - 1) + Positive(row[c1 - 1])
  }

  /** Sum of the strictly positive values of the band over rows [r0, r1) and
      columns [c0, c1): numpy's `np.sum(window[window > 0.0])`. */
  function RegionPositiveSum(b: Band, r0: nat, r1: nat, c0: nat, c1: nat): real
    requires b.Valid() && r0 <= r1 <= b.height && c0 <= c1 <= b.width
    decreases r1 - r0
  {
    if r0 == r1 then 0.0
    else RegionPositiveSum(b, r0, r1 - 1, c0, c1) + RowPositiveSum(b.rows[r1 - 1], c0, c1)
  }

  /** Total positive mass of a band: `np.sum(band[band > 0.0])`. */
  function PositiveSum(b: Band): (r: real)
    requires b.Valid()
    ensures r >= 0.0
    ensures forall p :: b.Contains(p) ==> r >= Positive(b.At(p))
  {
    RegionPositiveSumNonNegative(b, 0, b.height, 0, b.width);
    assert forall p :: b.Contains(p) ==> RegionPositiveSum(b, 0, b.height, 0, b.width) >= Positive(b.At(p)) by {
      forall p | b.Contains(p) ensures RegionPositiveSum(b, 0, b.height, 0, b.width) >= Positive(b.At(p)) {
        RegionPositiveSumAtLeastCell(b, 0, b.height, 0, b.width, p);
      }
    }
    RegionPositiveSum(b, 0, b.height, 0, b.width)
  }

  lemma {:induction false} RowPositiveSumSplit(row: seq<real>, a: nat, m: nat, c: nat)
    requires a <= m <= c <= |row|
    ensures RowPositiveSum(row, a, c) == RowPositiveSum(row, a, m) + RowPositiveSum(row, m, c)
    decreases c - m
  {
    if m < c {
      RowPositiveSumSplit(row, a, m, c - 1);
    }
  }

  lemma {:induction false} RowPositiveSumNonNegative(row: seq<real>, c0: nat, c1: nat)
    requires c0 <= c1 <= |row|
    ensures RowPositiveSum(row, c0, c1) >= 0.0
    decreases c1 - c0
  {
    if c0 < c1 {
      RowPositiveSumNonNegative(row, c0, c1 - 1);
    }
  }

  /** Positive mass of any sub-rectangle of a band is at least zero. */
  lemma {:induction false} RegionPositiveSumNonNegative(b: Band, r0: nat, r1: nat, c0: nat, c1: nat)
    requires b.Valid() && r0 <= r1 <= b.height && c0 <= c1 <= b.width
    ensures RegionPositiveSum(b, r0, r1, c0, c1) >= 0.0
    decreases r1 - r0
  {
    if r0 < r1 {
      RegionPositiveSumNonNegative(b, r0, r1 - 1, c0, c1);
      RowPositiveSumNonNegative(b.rows[r1 - 1], c0, c1);
    }
  }

  /** Positive mass of a sub-rectangle never exceeds the band's total positive mass. */
  lemma {:induction false} RegionPositiveSumAtMostTotal(b: Band, r0: nat, r1: nat, c0: nat, c1: nat)
    requires b.Valid() && r0 <= r1 <= b.height && c0 <= c1 <= b.width
    ensures RegionPositiveSum(b, r0, r1, c0, c1) <= PositiveSum(b)
  {
    RegionRowsMonotone(b, r0, r1, c0, c1);
    RegionPositiveSumNonNegative(b, 0, r0, 0, b.width);
  }

  // Widening the columns to the full width and adding the rows after r1.
  lemma {:induction false} RegionRowsMonotone(b: Band, r0: nat, r1: nat, c0: nat, c1: nat)
    requires b.Valid() && r0 <= r1 <= b.height && c0 <= c1 <= b.width
    ensures RegionPositiveSum(b, r0, r1, c0, c1) + RegionPositiveSum(b, 0, r0, 0, b.width) <= PositiveSum(b)
    decreases b.height - r1, r1 - r0
  {
    if r1 < b.height {
      RegionRowsMonotone(b, r0, r1 + 1, c0, c1);
      RowPositiveSumNonNegative(b.rows[r1], c0, c1);
    } else if r0 < r1 {
      RegionRowsMonotone(b, r0 + 1, r1, c0, c1);
      RegionPositiveSplitFirst(b, r0, r1, c0, c1);
      RowWithinFull(b.rows[r0], c0, c1);
      assert RegionPositiveSum(b, 0, r0 + 1, 0, b.width)
          == RegionPositiveSum(b, 0, r0, 0, b.width) + RowPositiveSum(b.rows[r0], 0, b.width);
    } else {
      assert RegionPositiveSum(b, r0, r1, c0, c1) == 0.0;
    }
  }

  lemma RegionPositiveSplitFirst(b: Band, r0: nat, r1: nat, c0: nat, c1: nat)
    requires b.Valid() && r0 < r1 <= b.height && c0 <= c1 <= b.width
    ensures RegionPositiveSum(b, r0, r1, c0, c1)
         == RowPositiveSum(b.rows[r0], c0, c1) + RegionPositiveSum(b, r0 + 1, r1, c0, c1)
    decreases r1 - r0
  {
    if r0 + 1 < r1 {
      RegionPositiveSplitFirst(b, r0, r1 - 1, c0, c1);
    }
  }

  lemma RowWithinFull(row: seq<real>, c0: nat, c1: nat)
    requires c0 <= c1 <= |row|
    ensures RowPositiveSum(row, c0, c1) <= RowPositiveSum(row, 0, |row|)
  {
    RowPositiveSumSplit(row, 0, c0, |row|);
    RowPositiveSumSplit(row, c0, c1, |row|);
    RowPositiveSumNonNegative(row, 0, c0);
    RowPositiveSumNonNegative(row, c1, |row|);
  }

  /** A strictly positive cell inside a rectangle contributes its whole value
      to the rectangle's positive mass. */
  lemma {:induction false} RowPositiveSumAtLeastCell(row: seq<real>, c0: nat, c1: nat, c: nat)
    requires c0 <= c < c1 <= |row|
    ensures RowPositiveSum(row, c0, c1) >= Positive(row[c])
    decreases c1 - c0
  {
    RowPositiveSumNonNegative(row, c0, c1 - 1);
    if c < c1 - 1 {
      RowPositiveSumAtLeastCell(row, c0, c1 - 1, c);
    }
  }

  lemma {:induction false} RegionPositiveSumAtLeastCell(b: Band, r0: nat, r1: nat, c0: nat, c1: nat, p: Pixel)
    requires b.Valid() && r0 <= r1 <= b.height && c0 <= c1 <= b.width
    requires r0 <= p.row < r1 && c0 <= p.col < c1
    ensures RegionPositiveSum(b, r0, r1, c0, c1) >= Positive(b.At(p))
    decreases r1 - r0
  {
    if p.row < r1 - 1 {
      RegionPositiveSumAtLeastCell(b, r0, r1 - 1, c0, c1, p);
      RowPositiveSumNonNegative(b.rows[r1 - 1], c0, c1);
    } else {
      RegionPositiveSumNonNegative(b, r0, r1 - 1, c0, c1);
      RowPositiveSumAtLeastCell(b.rows[r1 - 1], c0, c1, p.col);
    }
  }

  /** Python's normalisation of one slice bound `i` on an axis of length `n`:
      a negative bound counts from the end, then the bound is clipped to [0, n]. */
  function SliceBound(i: int, n: nat): (k: nat)
    ensures k <= n
    ensures 0 <= i <= n ==> k == i
    ensures i > n ==> k == n
  {
    if i < 0 then (if i + n < 0 then 0 else i + n)
    else if i > n then n
    else i
  }

  /** A Python slice `start:stop` with step 1. */
  datatype Slice = Slice(start: int, stop: int)
  {
    /** First index the slice selects on an axis of length n. */
    function Lo(n: nat): nat { SliceBound(start, n) }

    /** One past the last index the slice selects on an axis of length n. */
    function Hi(n: nat): (hi: nat)
      ensures Lo(n) <= hi <= n
    {
      var lo, hi := SliceBound(start, n), SliceBound(stop, n);
      if hi < lo then lo else hi
    }

    predicate Selects(x: int, n: nat) {
      Lo(n) <= x < Hi(n)
    }
  }

  /** Chebyshev (chessboard) distance between two pixels. */
  function Chebyshev(p: Pixel, q: Pixel): nat {
    var dr := if p.row >= q.row then p.row - q.row else q.row - p.row;
    var dc := if p.col >= q.col then p.col - q.col else q.col - p.col;
    if dr >= dc then dr else dc
  }
}
