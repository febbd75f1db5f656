/** `WindowedUnrasterizer._get_windows` and the merge of per-window results:
    cutting a raster into equal windows, and concatenating lists in order. */
module Tiling {
  import opened Raster

  /** `math.ceil(a / d)` for integers, d non-zero: the least r with r >= a / d.
      For a positive d, r windows of size d cover a cells and one fewer would
      not; for a negative d the inequalities turn round. */
  function CeilDiv(a: int, d: int): (r: int)
    requires d != 0
    ensures d > 0 ==> (r - 1) * d < a <= r * d
    ensures d < 0 ==> r * d <= a < (r - 1) * d
  {
    if d > 0 then
      var q := (a + d - 1) / d;
      DivBounds(a + d - 1, d);
      assert (q - 1) * d == q * d - d;
      q
    else
      var q := (-a + -d - 1) / -d;
      DivBounds(-a + -d - 1, -d);
      assert q * d == -(q * -d) && (q - 1) * d == q * d - d;
      q
  }

  /** Multiplying by a positive d keeps a strict order with a gap of d. */
  lemma {:induction false} MulStep(a: int, b: int, d: int)
    requires d > 0 && a < b
    ensures a * d + d <= b * d
    decreases b - a
  {
    assert (a + 1) * d == a * d + d;
    if a + 1 < b {
      MulStep(a + 1, b, d);
    }
  }

  /** Euclidean quotient bounds for a positive divisor. */
  lemma DivBounds(x: int, d: int)
    requires d > 0
    ensures (x / d) * d <= x < (x / d) * d + d
  {
  }

  /** For a positive divisor the quotient is the only i with i * d <= x < (i + 1) * d. */
  lemma DivUnique(x: int, d: int, i: int)
    requires d > 0
    ensures (i * d <= x < i * d + d) <==> i == x / d
  {
    DivBounds(x, d);
    var q := x / d;
    if i < q {
      MulStep(i, q, d);
    } else if q < i {
      MulStep(q, i, d);
    }
  }

  /** For a negative divisor and a non-negative numerator the ceiling is at most zero. */
  lemma CeilDivNegative(a: nat, d: int)
    requires d < 0
    ensures CeilDiv(a, d) <= 0
  {
    var n := -d - 1 - a as int;
    DivBounds(n, -d);
    if n / -d > 0 {
      MulStep(0, n / -d, -d);
    }
  }

  /** A negative number of windows along an axis means an empty range. */
  function Count(n: int): nat {
    if n > 0 then n else 0
  }

  /** `_get_windows(raster_data, window_shape)` for a raster of the given width
      and height: with nx = ceil(width / shape.0) and ny = ceil(height / shape.1),
      the window for (i, j) of `itertools.product(range(nx), range(ny))` has
      column offset i * shape.0 and row offset j * shape.1, and the size of the
      shape. A zero in the shape raises ZeroDivisionError (None). */
  function GetWindows(width: nat, height: nat, shape: (int, int)): (r: Option<seq<Window>>)
    ensures r.None? <==> shape.0 == 0 || shape.1 == 0
    ensures r.Some? ==> |r.value| == Count(CeilDiv(width, shape.0)) * Count(CeilDiv(height, shape.1))
  {
    if shape.0 == 0 || shape.1 == 0 then None
    else
      var nx, ny := Count(CeilDiv(width, shape.0)), Count(CeilDiv(height, shape.1));
      Some(seq(nx * ny, k requires 0 <= k < nx * ny =>
        Window((k / ny) * shape.0, (k % ny) * shape.1, shape.0, shape.1)))
  }

  /** Position i * ny + j holds the window of the pair (i, j): columns vary in
      the outer loop, rows in the inner one. */
  lemma GetWindowsAt(width: nat, height: nat, shape: (int, int), i: nat, j: nat)
    requires shape.0 != 0 && shape.1 != 0
    requires i < Count(CeilDiv(width, shape.0)) && j < Count(CeilDiv(height, shape.1))
    ensures i * Count(CeilDiv(height, shape.1)) + j < |GetWindows(width, height, shape).value|
    ensures GetWindows(width, height, shape).value[i * Count(CeilDiv(height, shape.1)) + j]
         == Window(i * shape.0, j * shape.1, shape.0, shape.1)
  {
    GridIndex(Count(CeilDiv(width, shape.0)), Count(CeilDiv(height, shape.1)), i, j);
  }

  /** In an nx-by-ny grid listed with the first coordinate outer, the pair
      (i, j) sits at i * ny + j, and that position decodes back to (i, j). */
  lemma GridIndex(nx: nat, ny: nat, i: nat, j: nat)
    requires i < nx && j < ny
    ensures i * ny + j < nx * ny
    ensures (i * ny + j) / ny == i && (i * ny + j) % ny == j
  {
    var k := i * ny + j;
    MulStep(i, nx, ny);
    DivUnique(k, ny, i);
    DivBounds(k, ny);
  }

  /** A negative (and no zero) window size gives no windows at all. */
  lemma GetWindowsNegative(width: nat, height: nat, shape: (int, int))
    requires shape.0 != 0 && shape.1 != 0 && (shape.0 < 0 || shape.1 < 0)
    ensures GetWindows(width, height, shape) == Some([])
  {
    if shape.0 < 0 {
      CeilDivNegative(width, shape.0);
    } else {
      CeilDivNegative(height, shape.1);
    }
  }

  /** Window `win` holds the cell at (row, col). */
  predicate Covers(win: Window, row: int, col: int) {
    win.colOff <= col < win.colOff + win.width && win.rowOff <= row < win.rowOff + win.height
  }

  /** The index of the window that holds (row, col). */
  function TileIndex(width: nat, height: nat, shape: (int, int), row: int, col: int): int
    requires shape.0 > 0 && shape.1 > 0
  {
    (col / shape.0) * Count(CeilDiv(height, shape.1)) + row / shape.1
  }

  /** A cell of a non-negative coordinate below `a` falls in one of the
      ceil(a / d) windows along that axis. */
  lemma QuotientInRange(x: int, a: nat, d: int)
    requires d > 0 && 0 <= x < a
    ensures 0 <= x / d < Count(CeilDiv(a, d))
  {
    DivBounds(x, d);
    var i, n := x / d, CeilDiv(a, d);
    if i < 0 {
      MulStep(i, 0, d);
    } else if n <= i {
      if n < i {
        MulStep(n, i, d);
      }
    }
  }

  /** Quotient and remainder by ny determine the index, and are determined by it. */
  lemma IndexDecompose(k: int, ny: int, i: int, j: int)
    requires ny > 0 && 0 <= j < ny
    ensures (k / ny == i && k % ny == j) <==> k == i * ny + j
  {
    DivBounds(k, ny);
    if k == i * ny + j {
      DivUnique(k, ny, i);
    }
  }

  /** Window k of the tiling covers (row, col) exactly when k is the tile index. */
  lemma CoversOnlyAtTileIndex(width: nat, height: nat, shape: (int, int), row: int, col: int, k: nat)
    requires shape.0 > 0 && shape.1 > 0
    requires 0 <= row < height && 0 <= col < width
    requires k < |GetWindows(width, height, shape).value|
    ensures Covers(GetWindows(width, height, shape).value[k], row, col) <==> k == TileIndex(width, height, shape, row, col)
  {
    var ny := Count(CeilDiv(height, shape.1));
    QuotientInRange(row, height, shape.1);
    var q, m := k / ny, k % ny;
    var win := GetWindows(width, height, shape).value[k];
    assert win == Window(q * shape.0, m * shape.1, shape.0, shape.1);
    DivUnique(col, shape.0, q);
    DivUnique(row, shape.1, m);
    IndexDecompose(k, ny, col / shape.0, row / shape.1);
  }

  /** With a positive shape the windows partition the raster: every cell lies
      in exactly one window, the one at `TileIndex`. */
  lemma WindowsPartition(width: nat, height: nat, shape: (int, int), row: int, col: int)
    requires shape.0 > 0 && shape.1 > 0
    requires 0 <= row < height && 0 <= col < width
    ensures 0 <= TileIndex(width, height, shape, row, col) < |GetWindows(width, height, shape).value|
    ensures forall k :: 0 <= k < |GetWindows(width, height, shape).value| ==>
      (Covers(GetWindows(width, height, shape).value[k], row, col) <==> k == TileIndex(width, height, shape, row, col))
  {
    QuotientInRange(col, width, shape.0);
    QuotientInRange(row, height, shape.1);
    GetWindowsAt(width, height, shape, col / shape.0, row / shape.1);
    forall k | 0 <= k < |GetWindows(width, height, shape).value|
      ensures Covers(GetWindows(width, height, shape).value[k], row, col) <==> k == TileIndex(width, height, shape, row, col)
    {
      CoversOnlyAtTileIndex(width, height, shape, row, col, k);
    }
  }

  /** `[x for xs in lists for x in xs]`: the lists concatenated in order. */
  function Flatten<T>(lists: seq<seq<T>>): (r: seq<T>)
    ensures |r| == TotalLength(lists)
  {
    if lists == [] then [] else Flatten(lists[..|lists| - 1]) + lists[|lists| - 1]
  }

  /** Sum of the lengths of the lists. */
  function TotalLength<T>(lists: seq<seq<T>>): nat {
    if lists == [] then 0 else TotalLength(lists[..|lists| - 1]) + |lists[|lists| - 1]|
  }

  /** Element j of list i sits in the flattened list right after all the
      elements of the lists before i. */
  lemma {:induction false} FlattenAt<T>(lists: seq<seq<T>>, i: nat, j: nat)
    requires i < |lists| && j < |lists[i]|
    ensures TotalLength(lists[..i]) + j < |Flatten(lists)|
    ensures Flatten(lists)[TotalLength(lists[..i]) + j] == lists[i][j]
  {
    var front := lists[..|lists| - 1];
    if i == |lists| - 1 {
      assert lists[..i] == front;
    } else {
      assert front[..i] == lists[..i];
      FlattenAt(front, i, j);
      assert TotalLength(lists) == TotalLength(front) + |lists[|lists| - 1]|;
    }
  }
}
