/**
 * The heat map's data and geometry: the dataset, the fixed layout constants,
 * the derived year span and bar sizes, and the rectangle drawn for one
 * monthly observation with its position, size, fill and data attributes.
 * Pixel values and temperatures are exact reals.
 */
module Chart {
  import opened Wrappers
  import opened ColorScale

  /** Calendar months, numbered 1 (January) to 12 (December). */
  type Month = m: int | 1 <= m <= 12 witness 1

  /** One data point: a year, a month and the deviation from the base
      temperature in degrees Celsius. */
  datatype Observation = Observation(year: int, month: Month, variance: real)

  /** The fetched document: the base temperature and the monthly records. */
  datatype Dataset = Dataset(baseTemperature: real, monthlyVariance: seq<Observation>)

  // Fixed size of the drawing surface and its paddings, in pixels.
  const Height: real := 600.0
  const HeightLegend: real := 84.0
  const Width: real := 1400.0
  const PaddingT: real := 10.0
  const PaddingB: real := 80.0
  const PaddingL: real := 100.0

  /** The lower edge of the cell area (where the year axis is drawn). */
  const PlotBottom: real := Height - HeightLegend - PaddingB

  /** Height of one month row: the cell area split into twelve rows. */
  const BarHeight: real := (Height - HeightLegend - PaddingT - PaddingB) / 12.0

  /** The twelve month rows have a positive height and together fill the
      cell area from the top padding to its bottom edge. */
  lemma BarHeightSplitsCellArea()
    ensures BarHeight > 0.0 && 12.0 * BarHeight == PlotBottom - PaddingT
  {
  }

  /** The earliest year among the records. */
  function MinYear(data: seq<Observation>): (m: int)
    requires |data| > 0
    ensures exists i :: 0 <= i < |data| && data[i].year == m
    ensures forall i :: 0 <= i < |data| ==> m <= data[i].year
  {
    if |data| == 1 then data[0].year
    else
      var rest := MinYear(data[1..]);
      if data[0].year <= rest then data[0].year else rest
  }

  /** The latest year among the records. */
  function MaxYear(data: seq<Observation>): (m: int)
    requires |data| > 0
    ensures exists i :: 0 <= i < |data| && data[i].year == m
    ensures forall i :: 0 <= i < |data| ==> data[i].year <= m
  {
    if |data| == 1 then data[0].year
    else
      var rest := MaxYear(data[1..]);
      if data[0].year >= rest then data[0].year else rest
  }

  /**
   * The number of year columns, latest year minus earliest year plus one.
   * With no records the minimum and maximum are undefined and so is the
   * span (None).
   */
  function DataYearLength(data: seq<Observation>): (n: Option<nat>)
    ensures n.Some? <==> |data| > 0
    ensures n.Some? ==> n.value >= 1
  {
    if |data| == 0 then None else Some(MaxYear(data) - MinYear(data) + 1)
  }

  /** With records present, the span is one more than the largest
      difference between two of their years. */
  lemma YearSpanIsLargestGap(data: seq<Observation>)
    requires |data| > 0
    ensures forall i, j :: 0 <= i < |data| && 0 <= j < |data| ==> data[i].year - data[j].year < DataYearLength(data).value
    ensures exists i, j :: 0 <= i < |data| && 0 <= j < |data| && data[i].year - data[j].year + 1 == DataYearLength(data).value
  {
    var i :| 0 <= i < |data| && data[i].year == MaxYear(data);
    var j :| 0 <= j < |data| && data[j].year == MinYear(data);
    assert data[i].year - data[j].year + 1 == DataYearLength(data).value;
  }

  /** The width of one year column: the chart width shared evenly among
      `yearLength` columns, so that together they fill it exactly. */
  function BarWidth(yearLength: nat): (w: real)
    requires yearLength >= 1
    ensures w > 0.0 && w * yearLength as real == Width
  {
    Width / yearLength as real
  }

  /** Left edge of the cell of `d`: its column index (years since
      `minYear`) times the column width, after the left padding. */
  function CellX(minYear: int, barWidth: real, d: Observation): (x: real)
    ensures d.year == minYear ==> x == PaddingL
    ensures barWidth >= 0.0 && d.year >= minYear ==> x >= PaddingL
  {
    (d.year - minYear) as real * barWidth + PaddingL
  }

  /** The column width of a non-empty dataset: positive, and the dataset's
      year columns share the chart width exactly. */
  function ColumnWidth(data: seq<Observation>): (w: real)
    requires |data| > 0
    ensures w > 0.0 && w * (DataYearLength(data).value as real) == Width
  {
    BarWidth(DataYearLength(data).value)
  }

  /** Top edge of the cell of `d`: its month row, below the top padding. */
  function CellY(d: Observation): (y: real)
    ensures PaddingT <= y && y + BarHeight <= PlotBottom
  {
    (d.month - 1) as real * BarHeight + PaddingT
  }

  /** The zero-based month written to the cell's data-month attribute. */
  function DataMonth(d: Observation): (m: int)
    ensures 0 <= m < 12
    ensures m + 1 == d.month
  {
    d.month - 1
  }

  /** The absolute temperature written to the cell's data-temp attribute;
      the colour table gives it a fill exactly when it is below 99. */
  function DataTemp(ds: Dataset, d: Observation): (t: real)
    ensures t == ds.baseTemperature + d.variance
    ensures Classify(ColorRange, t).Some? <==> t < 99.0
  {
    ClassifyChart(ds.baseTemperature + d.variance);
    ds.baseTemperature + d.variance
  }

  /** The attributes of one drawn cell. */
  datatype Cell = Cell(
    dataYear: int, dataMonth: int, dataTemp: real,
    x: real, y: real, width: real, height: real,
    fill: Colour)

  /**
   * The cell drawn for `d`, or None when its temperature matches no colour
   * row (the script then fails reading the fill of a missing row).
   */
  function CellOf(ds: Dataset, d: Observation): (c: Option<Cell>)
    requires |ds.monthlyVariance| > 0
    ensures c.Some? <==> DataTemp(ds, d) < 99.0
  {
    var t := DataTemp(ds, d);
    ClassifyChart(t);
    match Classify(ColorRange, t)
    case None => None
    case Some(f) =>
      Some(Cell(d.year, DataMonth(d), t,
                CellX(MinYear(ds.monthlyVariance), ColumnWidth(ds.monthlyVariance), d), CellY(d),
                ColumnWidth(ds.monthlyVariance), BarHeight, f))
  }

  /**
   * The cells for a run of records, in order; None as soon as one of them
   * cannot be coloured.
   */
  function CellsOf(ds: Dataset, obs: seq<Observation>): (cs: Option<seq<Cell>>)
    requires |obs| == 0 || |ds.monthlyVariance| > 0
    ensures cs.Some? <==> forall i :: 0 <= i < |obs| ==> DataTemp(ds, obs[i]) < 99.0
    ensures cs.Some? ==> |cs.value| == |obs|
    ensures cs.Some? ==> forall i :: 0 <= i < |obs| ==> CellOf(ds, obs[i]) == Some(cs.value[i])
  {
    if |obs| == 0 then Some([])
    else match (CellOf(ds, obs[0]), CellsOf(ds, obs[1..]))
      case (Some(c), Some(cs)) => Some([c] + cs)
      case _ => None
  }

  /** Every cell of the dataset; an empty dataset draws no cells. */
  function Cells(ds: Dataset): (cs: Option<seq<Cell>>)
    ensures |ds.monthlyVariance| == 0 ==> cs == Some([])
    ensures cs.Some? <==> forall i :: 0 <= i < |ds.monthlyVariance| ==> DataTemp(ds, ds.monthlyVariance[i]) < 99.0
    ensures cs.Some? ==> |cs.value| == |ds.monthlyVariance|
    ensures cs.Some? ==> forall i :: 0 <= i < |ds.monthlyVariance| ==> CellOf(ds, ds.monthlyVariance[i]) == Some(cs.value[i])
  {
    CellsOf(ds, ds.monthlyVariance)
  }

  /** Every record's year lies between the earliest and the latest year. */
  lemma YearWithinRange(data: seq<Observation>, o: Observation)
    requires o in data
    ensures MinYear(data) <= o.year <= MaxYear(data)
  {
    var k :| 0 <= k < |data| && data[k] == o;
  }

  /** A dataset whose records all occur in another has its earliest and
      latest years within the other's. */
  lemma YearRangeWidens(a: seq<Observation>, b: seq<Observation>)
    requires |a| > 0
    requires forall o :: o in a ==> o in b
    ensures |b| > 0 && MinYear(b) <= MinYear(a) && MaxYear(a) <= MaxYear(b)
  {
    var i :| 0 <= i < |a| && a[i].year == MinYear(a);
    assert a[i] in a;
    YearWithinRange(b, a[i]);
    var j :| 0 <= j < |a| && a[j].year == MaxYear(a);
    assert a[j] in a;
    YearWithinRange(b, a[j]);
  }

  /** The year span depends only on which records there are, not on their
      order or repetition. */
  lemma YearSpanIgnoresOrder(a: seq<Observation>, b: seq<Observation>)
    requires forall o :: o in a <==> o in b
    ensures DataYearLength(a) == DataYearLength(b)
  {
    if |a| > 0 {
      assert a[0] in a;
    }
    if |b| > 0 {
      assert b[0] in b;
    }
    if |a| > 0 {
      YearRangeWidens(a, b);
      YearRangeWidens(b, a);
    }
  }

  /** Multiplying by a non-negative factor keeps the order. */
  lemma MulMonotone(a: real, b: real, c: real)
    requires a <= b && c >= 0.0
    ensures a * c <= b * c
  {
  }

  /** Column arithmetic for any layout: a later year starts at least one
      column width further right. */
  lemma ColumnsOrdered(minYear: int, w: real, d1: Observation, d2: Observation)
    requires w > 0.0
    requires d1.year < d2.year
    ensures CellX(minYear, w, d1) + w <= CellX(minYear, w, d2)
  {
    var k1, k2 := (d1.year - minYear) as real, (d2.year - minYear) as real;
    assert (k1 + 1.0) * w == k1 * w + w;
    MulMonotone(k1 + 1.0, k2, w);
  }

  /** Column arithmetic for any layout: the next year's cell starts exactly
      one column width further right. */
  lemma ColumnsAdjacent(minYear: int, w: real, d: Observation)
    ensures CellX(minYear, w, d.(year := d.year + 1)) == CellX(minYear, w, d) + w
  {
    var k := (d.year - minYear) as real;
    assert (k + 1.0) * w == k * w + w;
  }

  /** Column arithmetic for any layout: the cell of the first year starts
      at the left padding. */
  lemma FirstColumnStarts(minYear: int, w: real, d: Observation)
    requires d.year == minYear
    ensures CellX(minYear, w, d) == PaddingL
  {
  }

  /** Column arithmetic for any layout: with `n` columns starting at
      `minYear`, the cell of the last year ends at the chart's right edge. */
  lemma LastColumnEnds(minYear: int, n: nat, d: Observation)
    requires n >= 1 && d.year - minYear + 1 == n
    ensures CellX(minYear, BarWidth(n), d) + BarWidth(n) == PaddingL + Width
  {
    var w := BarWidth(n);
    assert (d.year - minYear) as real * w + w == (n as real) * w;
  }

  /** Column arithmetic for any layout: a year among the `n` columns from
      `minYear` has its cell inside the chart's horizontal extent. */
  lemma ColumnWithin(minYear: int, n: nat, d: Observation)
    requires n >= 1 && minYear <= d.year <= minYear + n - 1
    ensures PaddingL <= CellX(minYear, BarWidth(n), d)
    ensures CellX(minYear, BarWidth(n), d) + BarWidth(n) <= PaddingL + Width
  {
    var w := BarWidth(n);
    MulMonotone(0.0, (d.year - minYear) as real, w);
    var last := d.(year := minYear + n - 1);
    if d.year < last.year {
      ColumnsOrdered(minYear, w, d, last);
    }
    LastColumnEnds(minYear, n, last);
  }

  /** x grows with the year: a later year starts at least one column width
      further right, so cells of different years never overlap. */
  lemma ColumnsDisjoint(data: seq<Observation>, d1: Observation, d2: Observation)
    requires |data| > 0
    requires d1.year < d2.year
    ensures CellX(MinYear(data), ColumnWidth(data), d1) + ColumnWidth(data) <= CellX(MinYear(data), ColumnWidth(data), d2)
  {
    ColumnsOrdered(MinYear(data), ColumnWidth(data), d1, d2);
  }

  /**
   * Horizontal tiling: the earliest year's cell starts at the left padding,
   * the cells of consecutive years are exactly one column width apart, and
   * the latest year's cell ends at the left padding plus the chart width.
   */
  lemma ColumnsTile(data: seq<Observation>, d: Observation)
    requires |data| > 0
    ensures d.year == MinYear(data) ==> CellX(MinYear(data), ColumnWidth(data), d) == PaddingL
    ensures CellX(MinYear(data), ColumnWidth(data), d.(year := d.year + 1))
         == CellX(MinYear(data), ColumnWidth(data), d) + ColumnWidth(data)
    ensures d.year == MaxYear(data) ==>
      CellX(MinYear(data), ColumnWidth(data), d) + ColumnWidth(data) == PaddingL + Width
  {
    if d.year == MinYear(data) {
      FirstColumnStarts(MinYear(data), ColumnWidth(data), d);
    }
    ColumnsAdjacent(MinYear(data), ColumnWidth(data), d);
    if d.year == MaxYear(data) {
      LastColumnEnds(MinYear(data), DataYearLength(data).value, d);
    }
  }

  /** Every record's cell lies inside the horizontal extent of the chart. */
  lemma CellWithinWidth(data: seq<Observation>, i: nat)
    requires i < |data|
    ensures PaddingL <= CellX(MinYear(data), ColumnWidth(data), data[i])
    ensures CellX(MinYear(data), ColumnWidth(data), data[i]) + ColumnWidth(data) <= PaddingL + Width
  {
    ColumnWithin(MinYear(data), DataYearLength(data).value, data[i]);
  }

  /**
   * Vertical tiling: January's row starts at the top padding, each month's
   * row ends where the next one begins, December's row ends at the bottom
   * of the cell area, and earlier months lie strictly above later ones.
   */
  lemma RowsTile(d1: Observation, d2: Observation)
    ensures d1.month == 1 ==> CellY(d1) == PaddingT
    ensures d1.month == 12 ==> CellY(d1) + BarHeight == PlotBottom
    ensures d2.month == d1.month + 1 ==> CellY(d2) == CellY(d1) + BarHeight
    ensures d1.month < d2.month ==> CellY(d1) + BarHeight <= CellY(d2)
  {
  }

  /** A drawn cell's zero-based data-month attribute is the index of the
      row it is drawn in. */
  lemma DataMonthIsRow(ds: Dataset, d: Observation)
    requires |ds.monthlyVariance| > 0
    requires ds.baseTemperature + d.variance < 99.0
    ensures CellOf(ds, d).value.y == CellOf(ds, d).value.dataMonth as real * BarHeight + PaddingT
  {
  }

  /**
   * A drawn cell is coloured by the row of the colour table whose interval
   * holds the very temperature it reports in data-temp, and that
   * temperature is the base temperature plus the record's variance.
   */
  lemma CellFillMatchesTemp(ds: Dataset, d: Observation)
    requires |ds.monthlyVariance| > 0
    requires ds.baseTemperature + d.variance < 99.0
    ensures var c := CellOf(ds, d).value;
      && c.dataTemp == ds.baseTemperature + d.variance
      && FindIndex(ColorRange, c.dataTemp).Some?
      && InBucket(ColorRange, FindIndex(ColorRange, c.dataTemp).value, c.dataTemp)
      && c.fill == ColorRange[FindIndex(ColorRange, c.dataTemp).value].fill
  {
    ClassifyChart(DataTemp(ds, d));
  }

  /**
   * A drawn cell reports its year and zero-based month, has the column and
   * row sizes, and lies inside the cell area of the chart.
   */
  lemma CellGeometry(ds: Dataset, i: nat)
    requires i < |ds.monthlyVariance|
    requires ds.baseTemperature + ds.monthlyVariance[i].variance < 99.0
    ensures var c := CellOf(ds, ds.monthlyVariance[i]).value;
      && c.dataYear == ds.monthlyVariance[i].year
      && 0 <= c.dataMonth < 12 && c.dataMonth + 1 == ds.monthlyVariance[i].month
      && c.width == ColumnWidth(ds.monthlyVariance)
      && c.height * 12.0 == PlotBottom - PaddingT
      && c.x == CellX(MinYear(ds.monthlyVariance), ColumnWidth(ds.monthlyVariance), ds.monthlyVariance[i])
      && c.y == CellY(ds.monthlyVariance[i])
      && PaddingL <= c.x && c.x + c.width <= PaddingL + Width
      && PaddingT <= c.y && c.y + c.height <= PlotBottom
  {
    var data := ds.monthlyVariance;
    CellWithinWidth(data, i);
  }

  /** Cells of two records for different (year, month) pairs do not overlap. */
  lemma CellsDoNotOverlap(ds: Dataset, d1: Observation, d2: Observation)
    requires |ds.monthlyVariance| > 0
    requires ds.baseTemperature + d1.variance < 99.0
    requires ds.baseTemperature + d2.variance < 99.0
    requires d1.year != d2.year || d1.month != d2.month
    ensures var c1, c2 := CellOf(ds, d1).value, CellOf(ds, d2).value;
      || c1.x + c1.width <= c2.x || c2.x + c2.width <= c1.x
      || c1.y + c1.height <= c2.y || c2.y + c2.height <= c1.y
  {
    if d1.year < d2.year {
      ColumnsDisjoint(ds.monthlyVariance, d1, d2);
    } else if d2.year < d1.year {
      ColumnsDisjoint(ds.monthlyVariance, d2, d1);
    } else {
      RowsTile(d1, d2);
      RowsTile(d2, d1);
    }
  }

  /** Some record is for year `y` and month `m`. */
  ghost predicate HasRecord(data: seq<Observation>, y: int, m: int) {
    exists i :: 0 <= i < |data| && data[i].year == y && data[i].month == m
  }

  /** Every month of every year from the earliest to the latest has a
      record. */
  ghost predicate CompleteGrid(data: seq<Observation>)
    requires |data| > 0
  {
    forall y, m :: MinYear(data) <= y <= MaxYear(data) && 1 <= m <= 12 ==> HasRecord(data, y, m)
  }

  /** Slot arithmetic: a point of [0, n * w) lies in the slot
      [k * w, (k + 1) * w) of some k among 0 .. n - 1. */
  lemma {:induction false} SlotOf(t: real, w: real, n: nat) returns (k: int)
    requires w > 0.0 && 0.0 <= t < n as real * w
    ensures 0 <= k < n
    ensures k as real * w <= t < (k + 1) as real * w
    decreases n
  {
    if n == 1 || (n - 1) as real * w <= t {
      k := n - 1;
    } else {
      k := SlotOf(t, w, n - 1);
    }
  }

  /** Column arithmetic for any layout: a point of the chart's horizontal
      extent lies in the column of one of the `n` years from `minYear`. */
  lemma ColumnAt(minYear: int, n: nat, px: real) returns (y: int)
    requires n >= 1 && PaddingL <= px < PaddingL + Width
    ensures minYear <= y <= minYear + n - 1
    ensures forall d: Observation :: d.year == y ==>
      CellX(minYear, BarWidth(n), d) <= px < CellX(minYear, BarWidth(n), d) + BarWidth(n)
  {
    var w := BarWidth(n);
    var k := SlotOf(px - PaddingL, w, n);
    y := minYear + k;
    assert (k + 1) as real * w == k as real * w + w;
  }

  /** Row arithmetic: a point of the cell area's vertical extent lies in
      the row of one month. */
  lemma RowAt(py: real) returns (m: Month)
    requires PaddingT <= py < PlotBottom
    ensures forall d: Observation :: d.month == m ==> CellY(d) <= py < CellY(d) + BarHeight
  {
    var k := SlotOf(py - PaddingT, BarHeight, 12);
    m := k + 1;
  }

  /**
   * When every month of every year in the span has a record, the cells
   * cover the whole cell area: every point of [PaddingL, PaddingL + Width)
   * x [PaddingT, PlotBottom) lies in the rectangle of some record.
   */
  lemma CellsCoverChartArea(data: seq<Observation>, px: real, py: real)
    requires |data| > 0 && CompleteGrid(data)
    requires PaddingL <= px < PaddingL + Width
    requires PaddingT <= py < PlotBottom
    ensures exists i :: (0 <= i < |data|
      && CellX(MinYear(data), ColumnWidth(data), data[i]) <= px < CellX(MinYear(data), ColumnWidth(data), data[i]) + ColumnWidth(data)
      && CellY(data[i]) <= py < CellY(data[i]) + BarHeight)
  {
    var y := ColumnAt(MinYear(data), DataYearLength(data).value, px);
    var m := RowAt(py);
    assert HasRecord(data, y, m);
    var i :| 0 <= i < |data| && data[i].year == y && data[i].month == m;
  }
}
