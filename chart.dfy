/** The `chart_data` series of the analysis result: one point per price row,
    in order, carrying the row's date, close and volume and, when the
    moving-average columns exist, the row's 20- and 50-row averages. */
module ChartData {
  import opened Wrappers
  import opened Indicators

  /** One row of the price history. Dates are compared for equality only. */
  datatype Bar = Bar(date: string, close: real, volume: int)

  datatype ChartPoint = ChartPoint(date: string, close: real, volume: int, ma20: Option<real>, ma50: Option<real>)

  /** The `Close` column. */
  function Closes(rows: seq<Bar>): (closes: seq<real>)
    ensures |closes| == |rows|
    ensures forall i :: 0 <= i < |rows| ==> closes[i] == rows[i].close
  {
    seq(|rows|, i requires 0 <= i < |rows| => rows[i].close)
  }

  /** `df[df["Date"] == date].index[0]`: the first row at or after `from`
      whose date is `date`. */
  function DateIndexFrom(rows: seq<Bar>, date: string, from: nat): (r: Option<nat>)
    decreases |rows| - from
    ensures r.Some? ==> from <= r.value < |rows| && rows[r.value].date == date
    ensures r.Some? ==> forall j :: from <= j < r.value ==> rows[j].date != date
    ensures r.None? ==> forall j :: from <= j < |rows| ==> rows[j].date != date
  {
    if from >= |rows| then None
    else if rows[from].date == date then Some(from)
    else DateIndexFrom(rows, date, from + 1)
  }

  function DateIndex(rows: seq<Bar>, date: string): Option<nat> {
    DateIndexFrom(rows, date, 0)
  }

  /** The value of the `MA<window>` column on the first row dated `date`:
      nothing when the column does not exist (fewer than `MinBars` rows),
      when no row has that date, or when the average is still undefined. */
  function MovingAverageOn(rows: seq<Bar>, window: nat, date: string): (m: Option<real>)
    requires 0 < window
    ensures m.Some? ==> |rows| >= MinBars && DateIndex(rows, date).Some?
    ensures m.Some? ==> window <= DateIndex(rows, date).value + 1
  {
    if |rows| < MinBars then None
    else match DateIndex(rows, date)
      case None => None
      case Some(j) => RollingMean(Closes(rows), window, j)
  }

  /** The chart point the source builds for `row` of the series `rows`. */
  function PointFor(rows: seq<Bar>, row: Bar): ChartPoint {
    ChartPoint(row.date, row.close, row.volume,
               MovingAverageOn(rows, ShortWindow, row.date), MovingAverageOn(rows, LongWindow, row.date))
  }

  /** Builds the chart series row by row. */
  method BuildChartData(rows: seq<Bar>) returns (points: seq<ChartPoint>)
    ensures |points| == |rows|
    ensures forall i :: 0 <= i < |rows| ==> points[i] == PointFor(rows, rows[i])
  {
    var closes := Closes(rows);
    var hasColumns := |rows| >= MinBars;
    points := [];
    for i := 0 to |rows|
      invariant |points| == i
      invariant forall k :: 0 <= k < i ==> points[k] == PointFor(rows, rows[k])
    {
      var row := rows[i];
      var ma20: Option<real> := None;
      var ma50: Option<real> := None;
      if hasColumns {
        var idx := DateIndex(rows, row.date);
        if idx.Some? {
          ma20 := RollingMean(closes, ShortWindow, idx.value);
        }
      }
      if hasColumns {
        var idx := DateIndex(rows, row.date);
        if idx.Some? {
          ma50 := RollingMean(closes, LongWindow, idx.value);
        }
      }
      points := points + [ChartPoint(row.date, row.close, row.volume, ma20, ma50)];
    }
  }

  /** All rows carry different dates. */
  predicate UniqueDates(rows: seq<Bar>) {
    forall j, k :: 0 <= j < k < |rows| ==> rows[j].date != rows[k].date
  }

  /** The date lookup finds the row itself when dates are unique, and the
      first row with that date otherwise. */
  lemma DateIndexOfRow(rows: seq<Bar>, i: nat)
    requires i < |rows|
    ensures DateIndex(rows, rows[i].date).Some?
    ensures DateIndex(rows, rows[i].date).value <= i
    ensures UniqueDates(rows) ==> DateIndex(rows, rows[i].date) == Some(i)
  {
  }

  /** With unique dates, the chart point of row `i` copies the row and carries
      the 20-row (50-row) average of the closes ending at row `i` exactly when
      the series has at least `MinBars` rows and `i` is at least 19 (49). */
  lemma ChartPointOfRow(rows: seq<Bar>, i: nat)
    requires UniqueDates(rows) && i < |rows|
    ensures PointFor(rows, rows[i]).date == rows[i].date
    ensures PointFor(rows, rows[i]).close == rows[i].close
    ensures PointFor(rows, rows[i]).volume == rows[i].volume
    ensures PointFor(rows, rows[i]).ma20.Some? <==> |rows| >= MinBars && i >= ShortWindow - 1
    ensures PointFor(rows, rows[i]).ma20.Some? ==>
      PointFor(rows, rows[i]).ma20.value == Mean(Closes(rows)[i + 1 - ShortWindow..i + 1])
    ensures PointFor(rows, rows[i]).ma50.Some? <==> |rows| >= MinBars && i >= LongWindow - 1
    ensures PointFor(rows, rows[i]).ma50.Some? ==>
      PointFor(rows, rows[i]).ma50.value == Mean(Closes(rows)[i + 1 - LongWindow..i + 1])
  {
    DateIndexOfRow(rows, i);
  }

  /** A series shorter than `MinBars` rows gets no moving averages at all,
      although pandas could compute the 20-row one from row 19 on. */
  lemma ShortSeriesHasNoAverages(rows: seq<Bar>, i: nat)
    requires |rows| < MinBars && i < |rows|
    ensures PointFor(rows, rows[i]).ma20 == None && PointFor(rows, rows[i]).ma50 == None
  {
  }

  /** A row whose date repeats an earlier row's gets the averages of the
      first row with that date, not its own. */
  lemma RepeatedDateTakesFirstRow(rows: seq<Bar>, j: nat, i: nat)
    requires j < i < |rows| && rows[j].date == rows[i].date && |rows| >= MinBars
    ensures DateIndex(rows, rows[i].date).value <= j
    ensures PointFor(rows, rows[i]).ma20 == RollingMean(Closes(rows), ShortWindow, DateIndex(rows, rows[i].date).value)
    ensures PointFor(rows, rows[i]).ma50 == RollingMean(Closes(rows), LongWindow, DateIndex(rows, rows[i].date).value)
  {
    DateIndexOfRow(rows, j);
  }
}
