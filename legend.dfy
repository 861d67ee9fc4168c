/**
 * The legend strip under the heat map: one square swatch per test
 * temperature, coloured by the same table as the cells, and a temperature
 * axis below it.
 */
module Legend {
  import opened Wrappers
  import opened ColorScale

  /** Side of a legend swatch, in pixels. */
  const BarLegend: real := 40.0

  /** Nominal width of the legend; its axis spans this width less 80. */
  const WidthLegend: real := 400.0

  /** The temperatures whose colours the legend shows, one per swatch. */
  const DataLegend: seq<real> := [3.5, 4.5, 5.5, 6.5, 7.5, 8.5, 9.5, 10.5, 11.5, 12.5]

  /** Horizontal offset of the legend axis relative to the swatches. */
  const AxisOffset: real := 40.0

  /** Left edge of swatch `i` within the legend group; exactly the swatches
      of the ten test temperatures fit within the legend width. */
  function SwatchX(i: nat): (x: real)
    ensures x >= 0.0
    ensures x + BarLegend <= WidthLegend <==> i < |DataLegend|
  {
    i as real * 40.0
  }

  /** The fill of the swatch for test temperature `v`. */
  function SwatchFill(v: real): (f: Option<Colour>)
    ensures f.Some? <==> v < 99.0
  {
    ClassifyChart(v);
    Classify(ColorRange, v)
  }

  /** The legend axis: the temperatures 4 to 12 spread linearly over
      0 to WidthLegend - 80 pixels. */
  function LegendScale(v: real): (x: real)
    ensures v == 4.0 ==> x == 0.0
    ensures v == 12.0 ==> x == WidthLegend - 80.0
  {
    (v - 4.0) * ((WidthLegend - 80.0) - 0.0) / (12.0 - 4.0)
  }

  /** The legend axis is strictly increasing. */
  lemma LegendScaleIncreasing(u: real, v: real)
    requires u < v
    ensures LegendScale(u) < LegendScale(v)
  {
  }

  /**
   * Each test temperature falls inside the row of the same index, so
   * swatch `i` shows row `i`'s colour: the legend shows every colour of the
   * table, in table order.
   */
  lemma {:induction false} LegendShowsEveryRow()
    ensures |DataLegend| == |ColorRange|
    ensures forall i :: 0 <= i < |DataLegend| ==>
      FindIndex(ColorRange, DataLegend[i]) == Some(i) && SwatchFill(DataLegend[i]) == Some(ColorRange[i].fill)
  {
    ColorRangeAscending();
    forall i | 0 <= i < |DataLegend|
      ensures FindIndex(ColorRange, DataLegend[i]) == Some(i)
    {
      FindIndexInterval(ColorRange, DataLegend[i], i);
    }
  }

  /** No colour appears on two swatches. */
  lemma LegendColoursDistinct()
    ensures forall i, j :: 0 <= i < j < |DataLegend| ==> SwatchFill(DataLegend[i]) != SwatchFill(DataLegend[j])
  {
    LegendShowsEveryRow();
    ColorRangeFillsDistinct();
  }

  /** Swatch `i` ends exactly where swatch `i + 1` begins, and swatches with
      different indices do not overlap. */
  lemma SwatchesTile(i: nat, j: nat)
    ensures SwatchX(i) + BarLegend == SwatchX(i + 1)
    ensures i < j ==> SwatchX(i) + BarLegend <= SwatchX(j)
  {
  }

  /**
   * The legend axis, drawn AxisOffset to the right of the swatches, puts
   * the upper bound of row `i - 1` (the lower bound of row `i`) exactly at
   * the left edge of swatch `i`, for the rows bounded by 4 to 12.
   */
  lemma AxisMeetsSwatchEdges(i: nat)
    requires 1 <= i < |ColorRange|
    ensures AxisOffset + LegendScale(ColorRange[i - 1].maxValue) == SwatchX(i)
  {
  }
}
