# Heat map of global monthly temperature: the data-to-picture rules

The chart script draws one rectangle per monthly observation of the global
temperature dataset. Each rectangle has a column for its year, a row for its
month, and a colour for its absolute temperature (base temperature plus the
month's variance). Below the chart, a legend shows the colour table as a
strip of swatches with a temperature axis.

This project models the pure rules behind that picture:

- `ColorScale` (color_scale.dfy) holds the fixed ten-row colour table. Each
  row is an exclusive upper bound plus a fill. The module also holds the
  first-match lookup: the first row whose bound is strictly greater than
  the temperature wins, and none matches at or above 99.
- `Chart` (chart.dfy) holds the dataset and observation records and the
  fixed layout constants. It also defines:
  - the year span and the column and row sizes;
  - each cell's x and y;
  - the `data-year`, `data-month` (zero-based) and `data-temp` attributes
    and the fill.

  The lemmas prove that:
  - the year columns and month rows tile the cell area;
  - no two cells overlap;
  - when every month of every year in the span has a record, the cells
    cover the whole cell area;
  - each cell's colour is the bucket holding the temperature it reports.
- `Legend` (legend.dfy) holds the ten test temperatures 3.5 to 12.5, the
  swatch positions and the legend axis. The lemmas prove that:
  - the swatches show every colour once, in table order;
  - the swatches touch without overlapping;
  - the axis marks the bucket bounds at the swatch edges.
- `Wrappers` (wrappers.dfy) holds the `Option` type. `None` stands for an
  undefined or failed result in the script:
  - no matching colour row (`undefined`);
  - the NaN year span of an empty dataset;
  - the error thrown when a fill is read from a missing row.

Temperatures and pixel values are exact `real`s. Floating-point rounding is
not modelled.

## Model

| member | source | states |
|---|---|---|
| `ColorScale.FindIndex` | script.js:159 | If it returns a row, that row's bound is strictly above the temperature and every earlier row's bound is at or below it, so it is the first match. It returns None only when no row's bound exceeds the temperature. |
| `ColorScale.Classify` | script.js:159 | A fill comes back exactly when some row's bound exceeds the temperature. That fill is the first matching row's. |
| `ColorScale.ColorRangeAscending` | script.js:29-70 | The table's bounds 4, 5, ..., 12, 99 strictly increase. |
| `ColorScale.ColorRangeFillsDistinct` | script.js:29-70 | The ten fills of the table are pairwise different. |
| `ColorScale.FindIndexInterval` | script.js:29-70 | In an ascending table, row i is chosen if and only if previous bound <= t < bound of row i. The first row has no lower limit. |
| `ColorScale.FindIndexTotal` | script.js:66-69 | In a non-empty ascending table, some row matches if and only if t is below the last bound. |
| `ColorScale.FindIndexMonotone` | script.js:29-70 | In any table, ascending or not, a lower temperature never maps to a later row than a higher one. It also matches whenever the higher one does. |
| `ColorScale.ClassifyChart` | script.js:159 | With the chart's table, classification succeeds if and only if t < 99. The chosen row's half-open interval then holds t, and the fill is that row's. |
| `Chart.MinYear` | script.js:156 | The result is the year of some record, and no record's year is smaller. |
| `Chart.MaxYear` | script.js:25 | The result is the year of some record, and no record's year is larger. |
| `Chart.DataYearLength` | script.js:25 | The span is defined if and only if there are records. When defined it is at least 1, so the bar-width division never divides by zero. |
| `Chart.YearSpanIsLargestGap` | script.js:25 | The span is one more than the largest difference between two record years: every difference is below it, and one difference reaches it. |
| `Chart.YearSpanIgnoresOrder` | script.js:25 | Two record sequences with the same members have the same span, whatever their order or repetitions. |
| `Chart.BarHeightSplitsCellArea` | script.js:27 | The row height is positive, and twelve rows exactly fill the cell area from the top padding to its bottom edge (12 x 35.5 = 426). |
| `Chart.BarWidth` | script.js:28 | The column width is positive, and the columns together fill the chart width exactly (width x year count = 1400). |
| `Chart.ColumnWidth` | script.js:25-28 | For a non-empty dataset, the column width is positive, and the column width times the dataset's year span equals the chart width. |
| `Chart.CellX` | script.js:156 | The first year's cell starts at the left padding, and no year from minYear on starts left of it. Together with `FirstColumnStarts` and `ColumnsAdjacent` (each later year one column width further right) this pins every cell's left edge. Its tiling is proved in `ColumnsTile`, `ColumnsDisjoint` and `CellWithinWidth`. |
| `Chart.FirstColumnStarts` | script.js:156 | The cell of the first year starts at the left padding. |
| `Chart.ColumnsAdjacent` | script.js:156 | The cell of year y + 1 starts exactly one column width to the right of the cell of year y. |
| `Chart.LastColumnEnds` | script.js:156 | With n columns from the first year, the cell of the n-th year ends at left padding + chart width. |
| `Chart.ColumnsOrdered` | script.js:156 | With a positive column width, an earlier year's cell ends at or before a later year's cell starts. |
| `Chart.ColumnWithin` | script.js:156 | A year within the n columns has its cell within [left padding, left padding + chart width]. |
| `Chart.ColumnsDisjoint` | script.js:156 | In a dataset's layout, the cells of different years do not overlap horizontally, and x increases with the year. |
| `Chart.ColumnsTile` | script.js:156 | In a dataset's layout, the year columns tile the chart width: the earliest year's column starts at the left padding, consecutive years are one column width apart, and the latest year's column ends at left padding + chart width. |
| `Chart.CellWithinWidth` | script.js:156 | Every record's cell lies within the horizontal extent of the chart. |
| `Chart.CellY` | script.js:157 | Every month's row lies between the top padding and the bottom of the cell area (600 - 84 - 80). |
| `Chart.RowsTile` | script.js:157 | The twelve rows tile the cell area: January starts at the top padding, each row ends where the next begins, December ends at the bottom of the cell area, and earlier months sit above later ones. |
| `Chart.DataTemp` | script.js:153 | `data-temp` equals base temperature + variance exactly, the same value the fill is computed from. The colour table gives it a fill exactly when it is below 99. |
| `Chart.DataMonth` | script.js:152 | `data-month` lies in 0..11 and is one less than the calendar month. |
| `Chart.DataMonthIsRow` | script.js:152-157 | A drawn cell's y is its zero-based `data-month` x row height + top padding, so `data-month` is the index of the row it is drawn in. |
| `Chart.CellOf` | script.js:151-159 | A cell is produced if and only if its absolute temperature is below 99. Otherwise reading the fill fails. |
| `Chart.CellFillMatchesTemp` | script.js:153-159 | A drawn cell's `data-temp` is base temperature + variance. The cell's fill is the fill of the table row whose half-open interval holds that temperature. |
| `Chart.CellGeometry` | script.js:151-157 | A drawn cell reports its record's year and zero-based month. Its x and y are the dataset's `CellX` and `CellY` for that record, so the column and row lemmas apply to the drawn cells. It has the column width and the row height (twelve rows fill the cell area). It lies inside the cell area. |
| `Chart.CellsDoNotOverlap` | script.js:154-157 | The rectangles of two records with different (year, month) do not overlap. |
| `Chart.CellsOf` | script.js:146-160 | The cells of a run of records exist if and only if every record's temperature is below 99. There is then one cell per record, in order, each being that record's cell. |
| `Chart.Cells` | script.js:146-160 | An empty dataset draws no cells. Otherwise drawing succeeds if and only if every temperature is below 99, giving one cell per record, in order, each being that record's cell. |
| `Chart.SlotOf` | script.js:156-157 | A point of [0, n x w) lies in the slot [k x w, (k + 1) x w) of some k among 0 .. n - 1. |
| `Chart.ColumnAt` | script.js:156 | Every point of the chart's horizontal extent lies in the column of one of the span's years. |
| `Chart.RowAt` | script.js:157 | Every point of the cell area's vertical extent lies in the row of one month. |
| `Chart.CellsCoverChartArea` | script.js:146-157 | The script does not guarantee that every (year, month) pair has a record. When every month of every year in the span does, every point of the cell area lies in some record's rectangle. |
| `Legend.SwatchX` | script.js:202 | Swatch positions are never negative. A swatch fits within the 400-pixel legend width exactly when its index is one of the ten test temperatures'. |
| `Legend.SwatchesTile` | script.js:200-202 | Each 40-pixel swatch ends where the next begins, and swatches with different indices do not overlap. |
| `Legend.SwatchFill` | script.js:205-207 | A swatch gets a colour if and only if its test temperature is below 99. |
| `Legend.LegendShowsEveryRow` | script.js:182-207 | There are as many test temperatures as table rows. The i-th test temperature classifies to row i, so swatch i shows row i's colour. |
| `Legend.LegendColoursDistinct` | script.js:205-207 | No two swatches show the same colour, so each of the ten colours appears exactly once. |
| `Legend.LegendScale` | script.js:183-186 | The legend axis maps temperature 4 to 0 and temperature 12 to 320 (the legend width less 80). |
| `Legend.LegendScaleIncreasing` | script.js:183-186 | The legend axis is strictly increasing. |
| `Legend.AxisMeetsSwatchEdges` | script.js:183-202 | The axis sits 40 pixels right of the swatches. Together with the scale, it places the lower bound of each row from 1 to 9 (the values 4 to 12) exactly at the left edge of swatch i. |

## Left out

- Fetching the dataset over the network and the top-level `await`
  (script.js:1-8). A `Dataset` value stands for the parsed response.
- All SVG and DOM construction (script.js:72-76, 101-130, 187-199,
  210-211): appending elements, setting attributes, the axes, the axis
  labels, the swatch strokes and the hand-written legend border path.
- The internals of the year axis scale and the month band scale
  (script.js:78-99). They only place axis ticks. The year scale maps the
  last year to left padding + chart width. The cell formula instead
  starts that year's cell one column width earlier. The model follows the
  cell formula.
- `Legend.LegendScale`: the legend's linear scale (script.js:183-186) is
  modelled as exact linear interpolation from [4, 12] to [0, 320], with no
  clamping or tick generation.
- The tooltip (script.js:133-143, 161-174): mouse events, timed opacity
  transitions, HTML text, and the month-name and one-decimal formatting
  done by library formatters.
- Floating-point arithmetic. The column width, row height and temperatures
  are exact reals, so rounding in the chart width split is not modelled.
- `Chart.Cells`: when a temperature reaches 99, the script throws while
  setting fills, partway through the selection. The model reports failure
  for the whole dataset. It does not model the partly coloured DOM left
  behind.
- `Chart.DataYearLength`: with no records, the script's minimum and
  maximum are `undefined` and the span and width become NaN. The model
  returns None. Cell functions require at least one record, since no cell
  exists otherwise.
- Months outside 1..12 cannot be represented: `Observation.month` is a
  1..12 subset type, as the dataset format promises.
- The right padding and the overall SVG size (script.js:19, 74-75) only
  size the drawing surface and are not modelled.
