/** The static helpers of `BaseUnrasterizer` that every selector shares besides
    the sort: value-conserving reweighting and pixel-to-coordinate mapping. */
module Base {
  import opened Raster
  import opened PixelOrder

  /** One float produced by the reweighting: an exact real, or the infinity or
      NaN that numpy yields when the denominator is zero. */
  datatype Value = Finite(v: real) | NonFinite

  function Sum(s: seq<real>): real {
    if s == [] then 0.0 else s[0] + Sum(s[1..])
  }

  lemma {:induction false} SumNonNegative(s: seq<real>)
    requires forall i :: 0 <= i < |s| ==> s[i] >= 0.0
    ensures Sum(s) >= 0.0
  {
    if s != [] {
      SumNonNegative(s[1..]);
    }
  }

  /** Non-negative weights whose first entry is positive have a positive sum. */
  lemma SumPositive(s: seq<real>)
    requires s != [] && s[0] > 0.0
    requires forall i :: 0 <= i < |s| ==> s[i] >= 0.0
    ensures Sum(s) > 0.0
  {
    SumNonNegative(s[1..]);
  }

  /** Sum of the finite entries of a reweighted list. */
  function FiniteSum(s: seq<Value>): real {
    if s == [] then 0.0
    else (if s[0].Finite? then s[0].v else 0.0) + FiniteSum(s[1..])
  }

  /** `[band[tuple(pixel)] for pixel in pixels]`. */
  function BandValues(b: Band, pixels: seq<Pixel>): (r: seq<real>)
    requires b.Valid() && AllIn(b, pixels)
    ensures |r| == |pixels|
    ensures forall i :: 0 <= i < |pixels| ==> r[i] == b.At(pixels[i])
  {
    seq(|pixels|, i requires 0 <= i < |pixels| => b.At(pixels[i]))
  }

  /** The list the reweighting works on: the raw values, or the band's values at
      the pixels when no raw value is given (an empty list counts as missing). */
  function WeightsUsed(b: Band, pixels: seq<Pixel>, raw: seq<real>): (r: seq<real>)
    requires b.Valid() && (raw == [] ==> AllIn(b, pixels))
    ensures |r| == if raw == [] then |pixels| else |raw|
    ensures raw != [] ==> r == raw
    ensures raw == [] ==> forall i :: 0 <= i < |pixels| ==> r[i] == b.At(pixels[i])
  {
    if raw == [] then BandValues(b, pixels) else raw
  }

  /** `[val * total / total_selected for val in values]`, where a zero
      denominator turns every entry into a non-finite float. */
  function Scale(values: seq<real>, total: real, selected: real): (r: seq<Value>)
    ensures |r| == |values|
    ensures forall i :: 0 <= i < |r| ==> (r[i].NonFinite? <==> selected == 0.0)
  {
    if values == [] then []
    else [if selected == 0.0 then NonFinite else Finite(values[0] * total / selected)]
         + Scale(values[1..], total, selected)
  }

  /** `_reassign_pixel_values(band, pixels, raw_pixel_values)`. */
  function ReassignPixelValues(b: Band, pixels: seq<Pixel>, raw: seq<real>): (r: seq<Value>)
    requires b.Valid() && (raw == [] ==> AllIn(b, pixels))
    ensures |r| == if raw == [] then |pixels| else |raw|
    ensures pixels == [] && raw == [] ==> r == []
  {
    var values := WeightsUsed(b, pixels, raw);
    Scale(values, PositiveSum(b), Sum(values))
  }

  lemma {:induction false} ScaleAt(values: seq<real>, total: real, selected: real, i: nat)
    requires i < |values|
    ensures |Scale(values, total, selected)| == |values|
    ensures Scale(values, total, selected)[i]
         == if selected == 0.0 then NonFinite else Finite(values[i] * total / selected)
  {
    if i > 0 {
      ScaleAt(values[1..], total, selected, i - 1);
    }
  }

  lemma {:induction false} ScaleSum(values: seq<real>, total: real, selected: real)
    requires selected != 0.0
    ensures FiniteSum(Scale(values, total, selected)) == Sum(values) * total / selected
  {
    if values != [] {
      var rest := Scale(values[1..], total, selected);
      ScaleSum(values[1..], total, selected);
      assert Scale(values, total, selected) == [Finite(values[0] * total / selected)] + rest;
      assert ([Finite(values[0] * total / selected)] + rest)[1..] == rest;
      assert values[0] * total / selected + Sum(values[1..]) * total / selected
          == (values[0] + Sum(values[1..])) * total / selected;
    }
  }

  /** Value conservation: when the weights do not sum to zero, every output is
      finite and the outputs add up to the band's total positive mass. */
  lemma ReassignConservesMass(b: Band, pixels: seq<Pixel>, raw: seq<real>)
    requires b.Valid() && (raw == [] ==> AllIn(b, pixels))
    requires Sum(WeightsUsed(b, pixels, raw)) != 0.0
    ensures forall i :: 0 <= i < |ReassignPixelValues(b, pixels, raw)| ==> ReassignPixelValues(b, pixels, raw)[i].Finite?
    ensures FiniteSum(ReassignPixelValues(b, pixels, raw)) == PositiveSum(b)
  {
    var values := WeightsUsed(b, pixels, raw);
    var total, selected := PositiveSum(b), Sum(values);
    ScaleSum(values, total, selected);
    forall i | 0 <= i < |values| ensures Scale(values, total, selected)[i].Finite? {
      ScaleAt(values, total, selected, i);
    }
  }

  /** The reweighting produces a non-finite value exactly when it has at least
      one weight and the weights sum to zero; then every value is non-finite. */
  lemma ReassignNonFiniteIff(b: Band, pixels: seq<Pixel>, raw: seq<real>, i: nat)
    requires b.Valid() && (raw == [] ==> AllIn(b, pixels))
    requires i < |ReassignPixelValues(b, pixels, raw)|
    ensures ReassignPixelValues(b, pixels, raw)[i].NonFinite? <==> Sum(WeightsUsed(b, pixels, raw)) == 0.0
  {
    var values := WeightsUsed(b, pixels, raw);
    assert ReassignPixelValues(b, pixels, raw) == Scale(values, PositiveSum(b), Sum(values));
    ScaleAt(values, PositiveSum(b), Sum(values), i);
  }

  /** Each finite output is its weight scaled by the common factor total / sum:
      the outputs keep the weights' proportions. */
  lemma ReassignProportional(b: Band, pixels: seq<Pixel>, raw: seq<real>, i: nat)
    requires b.Valid() && (raw == [] ==> AllIn(b, pixels))
    requires Sum(WeightsUsed(b, pixels, raw)) != 0.0
    requires i < |ReassignPixelValues(b, pixels, raw)|
    ensures ReassignPixelValues(b, pixels, raw)[i]
         == Finite(WeightsUsed(b, pixels, raw)[i] * PositiveSum(b) / Sum(WeightsUsed(b, pixels, raw)))
  {
    var values := WeightsUsed(b, pixels, raw);
    var total, selected := PositiveSum(b), Sum(values);
    assert ReassignPixelValues(b, pixels, raw) == Scale(values, total, selected);
    ScaleAt(values, total, selected, i);
    assert ReassignPixelValues(b, pixels, raw)[i]
        == Finite(WeightsUsed(b, pixels, raw)[i] * PositiveSum(b) / Sum(WeightsUsed(b, pixels, raw)));
  }

  /** Leaving out the raw values is the same as passing the band's values at
      the selected pixels. */
  lemma ReassignDefaultsToBandValues(b: Band, pixels: seq<Pixel>)
    requires b.Valid() && AllIn(b, pixels) && pixels != []
    ensures BandValues(b, pixels) != []
    ensures ReassignPixelValues(b, pixels, []) == ReassignPixelValues(b, pixels, BandValues(b, pixels))
  {
    assert BandValues(b, pixels)[0] == b.At(pixels[0]);
  }

  /** `_get_coordinates(transform, pixels, row_offset, col_offset)`, with the
      affine transform `xy` taken as a parameter. */
  function GetCoordinates(xy: (int, int) -> Coord, pixels: seq<Pixel>, rowOffset: int, colOffset: int): (r: seq<Coord>)
    ensures |r| == |pixels|
    ensures forall i :: 0 <= i < |pixels| ==> r[i] == xy(pixels[i].row + rowOffset, pixels[i].col + colOffset)
  {
    if pixels == [] then []
    else [xy(pixels[0].row + rowOffset, pixels[0].col + colOffset)]
         + GetCoordinates(xy, pixels[1..], rowOffset, colOffset)
  }
}
