/**
 * The colour classification of the heat map: a fixed table of
 * (exclusive upper bound, fill) rows, ascending by bound, and a first-match
 * lookup that picks the first row whose bound is strictly greater than an
 * absolute temperature.
 */
module ColorScale {
  import opened Wrappers

  /** A CSS colour token such as "#0d00ff". */
  type Colour = string

  /** One row of the colour table: temperatures below `maxValue` that no
      earlier row claims are drawn with `fill`. */
  datatype Bucket = Bucket(maxValue: real, fill: Colour)

  /** The chart's fixed colour table, ten rows with bounds 4, 5, ..., 12, 99. */
  const ColorRange: seq<Bucket> := [
    Bucket(4.0, "#0d00ff"),
    Bucket(5.0, "#7246ff"),
    Bucket(6.0, "#a075ff"),
    Bucket(7.0, "#c5a2ff"),
    Bucket(8.0, "#e4d0ff"),
    Bucket(9.0, "#ffd9cb"),
    Bucket(10.0, "#ffb299"),
    Bucket(11.0, "#ff8969"),
    Bucket(12.0, "#ff5b3a"),
    Bucket(99.0, "#ff0000")
  ]

  /** The bounds of the table strictly increase from row to row. */
  predicate Ascending(table: seq<Bucket>) {
    forall i, j :: 0 <= i < j < |table| ==> table[i].maxValue < table[j].maxValue
  }

  /** Row `i` is the half-open interval [previous bound, own bound); the
      first row has no lower limit. */
  predicate InBucket(table: seq<Bucket>, i: nat, t: real)
    requires i < |table|
  {
    (i == 0 || table[i - 1].maxValue <= t) && t < table[i].maxValue
  }

  /**
   * The index of the first row whose bound strictly exceeds `t`, or None when
   * no row does (the lookup then yields `undefined`).
   */
  function FindIndex(table: seq<Bucket>, t: real): (r: Option<nat>)
    ensures r.Some? ==> r.value < |table| && table[r.value].maxValue > t
    ensures r.Some? ==> forall j :: 0 <= j < r.value ==> table[j].maxValue <= t
    ensures r.None? ==> forall j :: 0 <= j < |table| ==> table[j].maxValue <= t
  {
    if |table| == 0 then None
    else if table[0].maxValue > t then Some(0)
    else match FindIndex(table[1..], t)
      case None => None
      case Some(k) => Some(k + 1)
  }

  /** The fill of the first matching row, or None where reading `.fill` of
      the missing row would throw. */
  function Classify(table: seq<Bucket>, t: real): (r: Option<Colour>)
    ensures r.Some? <==> exists j :: 0 <= j < |table| && table[j].maxValue > t
    ensures r.Some? ==> FindIndex(table, t).Some? && r.value == table[FindIndex(table, t).value].fill
  {
    match FindIndex(table, t)
    case None => None
    case Some(i) => Some(table[i].fill)
  }

  /** In an ascending table, the first match is row `i` exactly when `t` lies
      in row `i`'s half-open interval. */
  lemma FindIndexInterval(table: seq<Bucket>, t: real, i: nat)
    requires Ascending(table)
    requires i < |table|
    ensures FindIndex(table, t) == Some(i) <==> InBucket(table, i, t)
  {
  }

  /** In a non-empty ascending table a row matches exactly when `t` is below
      the last bound: classification is total below that bound. */
  lemma FindIndexTotal(table: seq<Bucket>, t: real)
    requires Ascending(table)
    requires |table| > 0
    ensures FindIndex(table, t).Some? <==> t < table[|table| - 1].maxValue
  {
    match FindIndex(table, t)
    case None =>
    case Some(k) =>
      assert table[k].maxValue <= table[|table| - 1].maxValue;
  }

  /** A higher temperature never lands in an earlier row, and whenever the
      higher one matches, so does the lower one. */
  lemma FindIndexMonotone(table: seq<Bucket>, t1: real, t2: real)
    requires t1 <= t2
    requires FindIndex(table, t2).Some?
    ensures FindIndex(table, t1).Some?
    ensures FindIndex(table, t1).value <= FindIndex(table, t2).value
  {
  }

  /** The chart's table is ascending. */
  lemma ColorRangeAscending()
    ensures Ascending(ColorRange)
  {
  }

  /** The ten fills of the chart's table are pairwise distinct. */
  lemma ColorRangeFillsDistinct()
    ensures forall i, j :: 0 <= i < j < |ColorRange| ==> ColorRange[i].fill != ColorRange[j].fill
  {
  }

  /** Classifying against the chart's table succeeds exactly for temperatures
      below 99, and then picks the row whose interval holds the temperature. */
  lemma ClassifyChart(t: real)
    ensures Classify(ColorRange, t).Some? <==> t < 99.0
    ensures Classify(ColorRange, t).Some? ==>
      var i := FindIndex(ColorRange, t).value;
      i < |ColorRange| && InBucket(ColorRange, i, t) && Classify(ColorRange, t).value == ColorRange[i].fill
  {
    ColorRangeAscending();
    FindIndexTotal(ColorRange, t);
    if t < 99.0 {
      FindIndexInterval(ColorRange, t, FindIndex(ColorRange, t).value);
    }
  }
}
