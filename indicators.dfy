/** The moving averages and the trend label of the technical block: pandas'
    `rolling(window).mean()` over the closing prices, the two moving-average
    signals and the ten-day trend. Prices are exact real numbers. */
module Indicators {
  import opened Wrappers

  /** Below this many bars there is no technical block and no moving-average
      column at all. */
  const MinBars: nat := 50
  const ShortWindow: nat := 20
  const LongWindow: nat := 50
  /** The trend compares the mean of the last `TrendSpan` closes with the
      mean of the `TrendSpan` closes before them. */
  const TrendSpan: nat := 10
  const NotEnoughDataMessage := "Not enough data points for technical analysis"

  function Sum(s: seq<real>): real {
    if |s| == 0 then 0.0 else Sum(s[..|s| - 1]) + s[|s| - 1]
  }

  function Mean(s: seq<real>): real
    requires |s| > 0
  {
    Sum(s) / (|s| as real)
  }

  /** `closes.rolling(window).mean()` at row `i`: the mean of the `window`
      closes ending at row `i`, or nothing (pandas' NaN) while fewer than
      `window` rows have been seen. */
  function RollingMean(closes: seq<real>, window: nat, i: nat): (m: Option<real>)
    requires 0 < window && i < |closes|
    ensures m.Some? <==> window <= i + 1
  {
    if i + 1 < window then None else Some(Mean(closes[i + 1 - window..i + 1]))
  }

  datatype Signal = Above | Below
  datatype Trend = Uptrend | Downtrend

  /** The technical summary, without its RSI entry. */
  datatype Technical =
    | Technical(latestClose: real, ma20Signal: Signal, ma50Signal: Signal, trend: Trend)
    | TechnicalError(error: string)

  /** The latest close is "above" a moving average only when strictly greater. */
  function SignalOf(latest: real, average: real): (s: Signal)
    ensures s == Above <==> latest > average
  {
    if latest > average then Above else Below
  }

  /** The technical block of the analysis for a series of closes. */
  function TechnicalAnalysis(closes: seq<real>): (t: Technical)
    ensures t.Technical? <==> |closes| >= MinBars
    ensures t.TechnicalError? ==> t.error == NotEnoughDataMessage
    ensures t.Technical? ==> t.latestClose == closes[|closes| - 1]
    ensures t.Technical? ==>
      (t.ma20Signal == Above <==> closes[|closes| - 1] > RollingMean(closes, ShortWindow, |closes| - 1).value)
    ensures t.Technical? ==>
      (t.ma50Signal == Above <==> closes[|closes| - 1] > RollingMean(closes, LongWindow, |closes| - 1).value)
    ensures t.Technical? ==>
      (t.trend == Uptrend <==> Mean(closes[|closes| - TrendSpan..]) > Mean(closes[|closes| - 2 * TrendSpan..|closes| - TrendSpan]))
  {
    var n := |closes|;
    if n >= MinBars then
      var latest := closes[n - 1];
      var ma20 := RollingMean(closes, ShortWindow, n - 1).value;
      var ma50 := RollingMean(closes, LongWindow, n - 1).value;
      var recent := Mean(closes[n - TrendSpan..]);
      var before := Mean(closes[n - 2 * TrendSpan..n - TrendSpan]);
      Technical(latest, SignalOf(latest, ma20), SignalOf(latest, ma50),
                if recent > before then Uptrend else Downtrend)
    else
      TechnicalError(NotEnoughDataMessage)
  }

  // ---------------------------------------------------------------- bounds on sums and means

  lemma {:induction false} SumAtMost(s: seq<real>, c: real)
    requires forall k :: 0 <= k < |s| ==> s[k] <= c
    ensures Sum(s) <= (|s| as real) * c
  {
    if |s| > 0 {
      SumAtMost(s[..|s| - 1], c);
    }
  }

  lemma {:induction false} SumAtLeast(s: seq<real>, c: real)
    requires forall k :: 0 <= k < |s| ==> c <= s[k]
    ensures (|s| as real) * c <= Sum(s)
  {
    if |s| > 0 {
      SumAtLeast(s[..|s| - 1], c);
    }
  }

  lemma {:induction false} SumAbove(s: seq<real>, c: real)
    requires |s| > 0 && forall k :: 0 <= k < |s| ==> c < s[k]
    ensures (|s| as real) * c < Sum(s)
  {
    SumAtLeast(s[..|s| - 1], c);
  }

  lemma {:induction false} SumOfConstant(s: seq<real>, c: real)
    requires forall k :: 0 <= k < |s| ==> s[k] == c
    ensures Sum(s) == (|s| as real) * c
  {
    if |s| > 0 {
      SumOfConstant(s[..|s| - 1], c);
    }
  }

  /** A mean lies at or below a bound of all its terms. */
  lemma MeanAtMost(s: seq<real>, c: real)
    requires |s| > 0 && forall k :: 0 <= k < |s| ==> s[k] <= c
    ensures Mean(s) <= c
  {
    SumAtMost(s, c);
    QuotientAtMost(Sum(s), |s| as real, c);
  }

  /** A mean lies strictly above a strict lower bound of all its terms. */
  lemma MeanAbove(s: seq<real>, c: real)
    requires |s| > 0 && forall k :: 0 <= k < |s| ==> c < s[k]
    ensures c < Mean(s)
  {
    SumAbove(s, c);
    QuotientAbove(Sum(s), |s| as real, c);
  }

  /** The mean of a window whose last term is its strict maximum lies
      strictly below that last term. */
  lemma MeanBelowLast(s: seq<real>)
    requires |s| >= 2 && forall k :: 0 <= k < |s| - 1 ==> s[k] < s[|s| - 1]
    ensures Mean(s) < s[|s| - 1]
  {
    var init, last := s[..|s| - 1], s[|s| - 1];
    assert forall k :: 0 <= k < |init| ==> init[k] <= last;
    SumAtMost(init, last);
    assert init[0] < last;
    SumBelowWithStrict(init, last);
    QuotientBelow(Sum(s), |s| as real, last);
  }

  lemma SumBelowWithStrict(s: seq<real>, c: real)
    requires |s| > 0 && s[0] < c && forall k :: 0 <= k < |s| ==> s[k] <= c
    ensures Sum(s) < (|s| as real) * c
  {
    if |s| == 1 {
      assert s[..0] == [];
    } else {
      var init := s[..|s| - 1];
      assert init[0] == s[0];
      SumBelowWithStrict(init, c);
    }
  }

  /** The mean of a constant window is that constant. */
  lemma MeanOfConstant(s: seq<real>, c: real)
    requires |s| > 0 && forall k :: 0 <= k < |s| ==> s[k] == c
    ensures Mean(s) == c
  {
    SumOfConstant(s, c);
  }

  lemma QuotientAtMost(x: real, n: real, c: real)
    requires n > 0.0 && x <= n * c
    ensures x / n <= c
  {
    assert x / n * n == x;
  }

  lemma QuotientBelow(x: real, n: real, c: real)
    requires n > 0.0 && x < n * c
    ensures x / n < c
  {
    assert x / n * n == x;
  }

  lemma QuotientAbove(x: real, n: real, c: real)
    requires n > 0.0 && n * c < x
    ensures c < x / n
  {
    assert x / n * n == x;
  }

  lemma QuotientAtLeast(x: real, n: real, c: real)
    requires n > 0.0 && n * c <= x
    ensures c <= x / n
  {
    assert x / n * n == x;
  }

  // ---------------------------------------------------------------- properties of the technical block

  /** A moving average, where defined, lies between the least and the greatest
      close of its window. */
  lemma RollingMeanWithinWindow(closes: seq<real>, window: nat, i: nat, lo: real, hi: real)
    requires 0 < window <= i + 1 && i < |closes|
    requires forall k :: i + 1 - window <= k <= i ==> lo <= closes[k] <= hi
    ensures lo <= RollingMean(closes, window, i).value <= hi
  {
    var w := closes[i + 1 - window..i + 1];
    assert forall k :: 0 <= k < |w| ==> w[k] == closes[i + 1 - window + k];
    MeanAtMost(w, hi);
    SumAtLeast(w, lo);
    QuotientAtLeast(Sum(w), |w| as real, lo);
  }

  /** A flat series is below both averages (the comparison is strict) and is
      in a downtrend. */
  lemma FlatSeriesIsBelowAndDown(closes: seq<real>, c: real)
    requires |closes| >= MinBars && forall k :: 0 <= k < |closes| ==> closes[k] == c
    ensures TechnicalAnalysis(closes) == Technical(c, Below, Below, Downtrend)
  {
    var n := |closes|;
    MeanOfConstant(closes[n - ShortWindow..n], c);
    MeanOfConstant(closes[n - LongWindow..n], c);
    MeanOfConstant(closes[n - TrendSpan..], c);
    MeanOfConstant(closes[n - 2 * TrendSpan..n - TrendSpan], c);
  }

  /** A strictly rising series is above both averages and in an uptrend. */
  lemma RisingSeriesIsAboveAndUp(closes: seq<real>)
    requires |closes| >= MinBars
    requires forall j, k :: 0 <= j < k < |closes| ==> closes[j] < closes[k]
    ensures TechnicalAnalysis(closes).Technical?
    ensures TechnicalAnalysis(closes).ma20Signal == Above
    ensures TechnicalAnalysis(closes).ma50Signal == Above
    ensures TechnicalAnalysis(closes).trend == Uptrend
  {
    RisingWindowBelowLast(closes, ShortWindow);
    RisingWindowBelowLast(closes, LongWindow);
    var n := |closes|;
    var recent, before := closes[n - TrendSpan..], closes[n - 2 * TrendSpan..n - TrendSpan];
    var pivot := closes[n - TrendSpan - 1];
    assert forall k :: 0 <= k < |recent| ==> recent[k] == closes[n - TrendSpan + k];
    assert forall k :: 0 <= k < |before| ==> before[k] == closes[n - 2 * TrendSpan + k];
    MeanAbove(recent, pivot);
    MeanAtMost(before, pivot);
  }

  /** In a strictly rising series, the trailing mean over two or more rows
      lies below the latest close. */
  lemma RisingWindowBelowLast(closes: seq<real>, window: nat)
    requires 2 <= window <= |closes|
    requires forall j, k :: 0 <= j < k < |closes| ==> closes[j] < closes[k]
    ensures RollingMean(closes, window, |closes| - 1).value < closes[|closes| - 1]
  {
    var n := |closes|;
    var w := closes[n - window..n];
    assert w[|w| - 1] == closes[n - 1];
    assert forall k :: 0 <= k < |w| - 1 ==> w[k] == closes[n - window + k];
    MeanBelowLast(w);
  }

  /** The rolling mean of the series [10, 12, 11, 13, 14] over three rows:
      undefined on the second row, 11 on the third, 38/3 on the last. */
  lemma RollingMeanExample()
    ensures RollingMean([10.0, 12.0, 11.0, 13.0, 14.0], 3, 1) == None
    ensures RollingMean([10.0, 12.0, 11.0, 13.0, 14.0], 3, 2) == Some(11.0)
    ensures RollingMean([10.0, 12.0, 11.0, 13.0, 14.0], 3, 4) == Some(38.0 / 3.0)
  {
    var s := [10.0, 12.0, 11.0, 13.0, 14.0];
    assert s[0..3] == [10.0, 12.0, 11.0];
    assert s[2..5] == [11.0, 13.0, 14.0];
    assert Sum([10.0, 12.0, 11.0]) == 33.0 by {
      assert [10.0, 12.0, 11.0][..2] == [10.0, 12.0];
      assert [10.0, 12.0][..1] == [10.0];
      assert [10.0][..0] == [];
    }
    assert Sum([11.0, 13.0, 14.0]) == 38.0 by {
      assert [11.0, 13.0, 14.0][..2] == [11.0, 13.0];
      assert [11.0, 13.0][..1] == [11.0];
      assert [11.0][..0] == [];
    }
  }
}
