# Stock analysis agent: the analysis step, in Dafny

This project models `AnalysisAgent.process` of the stock-analysis agent. It
takes the data collected for one ticker and does the following:

- It rejects input that lacks the `success` flag or has no price history.
- It falls back from `historical_data.data` to `chart_data`, and from
  `historical_data.info` to `company_info`.
- It computes the technical block: the latest close against its 20- and
  50-row moving averages, and the ten-row trend.
- It asks the language model for an analysis.
- It reads a BUY/SELL/HOLD recommendation and a HIGH/MEDIUM/LOW confidence
  out of the reply.
- It builds the `chart_data` series of the result.

Files:

- `wrappers.dfy`: `Option`.
- `text.dfy` (module `PyText`): the Python string operations the scanner
  uses. These are `upper()` on ASCII letters, clamped slicing, `strip()`
  over Python's white-space set, `find()` and `in`.
- `extraction.dfy` (module `Extraction`): the two keyword scanners.
  - The specification is a function. It builds the sequence of per-pattern
    verdicts and takes the first one that decides.
  - The imperative `for` loops with `break` are methods proved equal to it.
- `indicators.dfy` (module `Indicators`): rolling means, the
  moving-average signals and the trend, over exact reals.
- `chart.dfy` (module `ChartData`): the chart series builder (a method with
  a loop) and the per-row specification it meets.
- `finding.dfy` (module `UpperFinding`): the marker scan with Python's
  full `upper()`, which can lengthen the text, and the misreading that
  follows (see Findings).
- `agent.dfy` (module `AnalysisAgent`): `process` itself, with the reply of
  the language model as a parameter.

## Model

| member | source | states |
|---|---|---|
| PyText.Slice | agents/analysis_agent.py:301 | a slice with bounds past the end is clamped to the text, and one that starts at or past its end is empty |
| PyText.Prefix | agents/analysis_agent.py:304 | `s[:n]` has `min(n, len(s))` characters and is a prefix of `s` |
| PyText.StripIsPiece | agents/analysis_agent.py:301 | `strip()` returns the piece of its input between leading and trailing white space; it neither starts nor ends with white space, and all it drops is white space |
| PyText.FindFrom | agents/analysis_agent.py:300 | `find` returns the lowest position where the pattern occurs, and nothing exactly when it occurs nowhere |
| PyText.ContainsIff | agents/analysis_agent.py:298 | `p in s` holds exactly when `p` occurs at some position of `s` |
| Extraction.MarkerEnd | agents/analysis_agent.py:298-301 | the window starts after a marker exactly when the upper-cased marker occurs in the upper-cased reply, and it starts inside the reply |
| Extraction.MarkerIsFirstOccurrence | agents/analysis_agent.py:300-301 | the window starts right after the first occurrence of the marker and after no other |
| Extraction.MarkerWindow | agents/analysis_agent.py:301-304 | a marker that is present yields a window of at most 30 (15) characters |
| Extraction.WindowInText | agents/analysis_agent.py:301-304 | a keyword found in a window occurs in the original-case reply, at or after the end of the marker and within the 100 (50) characters after it |
| Extraction.FirstDecidedIsFirst | agents/analysis_agent.py:297-312 | the scan yields a label exactly when some pattern's window decides it and no earlier pattern's window decides anything |
| Extraction.FirstDecidedNone | agents/analysis_agent.py:289-312 | the scan falls through to the default exactly when no pattern decides |
| Extraction.ExtractRecommendation | agents/analysis_agent.py:289-312 | the loop over the patterns with its `break` returns the recommendation the specification gives |
| Extraction.RecommendationPriority | agents/analysis_agent.py:303-312 | in the first window that holds a keyword, BUY beats SELL and SELL beats HOLD; a window without one passes the decision to the later patterns |
| Extraction.RecommendationWithoutMarker | agents/analysis_agent.py:289-298 | a reply without the word RECOMMENDATION in any case is read as HOLD |
| Extraction.RecommendationNeedsCapitalKeyword | agents/analysis_agent.py:301-310 | BUY (SELL) comes out only when the reply holds that word in capitals within 100 characters after a marker; a reply holding neither word is read as HOLD |
| Extraction.LowerCaseBuyIsHold | agents/analysis_agent.py:293-303 | "Recommendation: buy" is read as HOLD, because the keyword test is case-sensitive |
| Extraction.CapitalBuyIsBuy | agents/analysis_agent.py:298-305 | "Recommendation: BUY" is read as BUY |
| Extraction.ExtractConfidence | agents/analysis_agent.py:290-329 | the loop over the confidence patterns with its `break` returns the confidence the specification gives |
| Extraction.ConfidencePriority | agents/analysis_agent.py:321-329 | in the first window that holds a keyword, HIGH beats MEDIUM and MEDIUM beats LOW; a window without one passes the decision on |
| Extraction.ConfidenceWithoutMarker | agents/analysis_agent.py:290-317 | a reply without the word CONFIDENCE in any case is read as LOW |
| Extraction.ConfidenceNeedsCapitalKeyword | agents/analysis_agent.py:319-326 | HIGH (MEDIUM) comes out only when the reply holds that word in capitals within 50 characters after a marker; a reply holding neither word is read as LOW |
| UpperFinding.ExpandingUpperMisreadsBuy | agents/analysis_agent.py:293-305 | with Python's full `upper()`, the reply "ßßRECOMMENDATION:BUY" is read as HOLD, while a window placed right after the marker reads it as BUY |
| UpperFinding.MarkerEndsAfterMarker | agents/analysis_agent.py:293-301 | with a length-preserving `upper()`, the characters just before the window are the marker, up to case |
| Indicators.RollingMean | agents/analysis_agent.py:109-110 | the rolling mean at row `i` is defined exactly when at least `window` rows end at row `i` |
| Indicators.RollingMeanWithinWindow | agents/analysis_agent.py:109-110 | a defined rolling mean lies between the least and the greatest close of its window |
| Indicators.RollingMeanExample | agents/analysis_agent.py:109-110 | over [10, 12, 11, 13, 14] with window 3: undefined on row 1, 11 on row 2, 38/3 on row 4 |
| Indicators.SignalOf | agents/analysis_agent.py:114-115 | the signal is "above" exactly when the latest close is strictly greater than the average |
| Indicators.TechnicalAnalysis | agents/analysis_agent.py:108-143 | the technical block exists exactly when there are at least 50 closes, otherwise it is the error "Not enough data points for technical analysis"; it carries the last close, each signal is "above" exactly when that close exceeds the trailing 20 (50) mean, and the trend is "uptrend" exactly when the mean of the last 10 closes exceeds the mean of the 10 before them |
| Indicators.FlatSeriesIsBelowAndDown | agents/analysis_agent.py:114-130 | a constant series is "below" both averages and in a "downtrend", because both comparisons are strict |
| Indicators.RisingSeriesIsAboveAndUp | agents/analysis_agent.py:114-130 | a strictly rising series is "above" both averages and in an "uptrend" |
| ChartData.DateIndexFrom | agents/analysis_agent.py:340-341 | the date lookup finds the first row with that date, and nothing when no row has it |
| ChartData.MovingAverageOn | agents/analysis_agent.py:339-346 | a moving average is attached only when the column exists (at least 50 rows), the date is found and the average is defined there |
| ChartData.BuildChartData | agents/analysis_agent.py:332-347 | the loop yields one point per row, in order, each the point specified for its row |
| ChartData.ChartPointOfRow | agents/analysis_agent.py:333-347 | with unique dates, point `i` copies date, close and volume, and carries `ma20` (`ma50`) exactly when there are at least 50 rows and `i >= 19` (`i >= 49`), equal to the mean of the closes of rows `i-19..i` (`i-49..i`) |
| ChartData.ShortSeriesHasNoAverages | agents/analysis_agent.py:339-346 | a series of fewer than 50 rows gets no moving average on any point |
| ChartData.RepeatedDateTakesFirstRow | agents/analysis_agent.py:340-346 | a row whose date repeats an earlier row's gets the averages of the first row with that date |
| AnalysisAgent.SeriesOf | agents/analysis_agent.py:68-78 | the series is `historical_data.data` when that is not empty and `chart_data` otherwise; it is empty exactly when both are |
| AnalysisAgent.CompanyInfoOf | agents/analysis_agent.py:80-83 | the company info is `historical_data.info` when that is not empty and `company_info` otherwise; it is empty exactly when both are |
| AnalysisAgent.Process | agents/analysis_agent.py:57-371 | the run succeeds exactly when the `success` flag is set, some series is non-empty and the language model answers; the errors are "Invalid input data", "No historical data available for analysis" or the model call's exception message; a success carries the inputs' symbol, period and description, the chosen company info, the reply, and the recommendation, confidence, technical block and chart series the specifications give |

## Left out

- The RSI entry of the technical block (`rsi`, :118-127, :137). It depends on IEEE division by a zero average loss and on NaN windows.
- The prompt text, the system prompt and the `:.2f` formatting of the summaries (:17-35, :145-283). They build the text sent to the language model.
- Company-info values are opaque strings here. In the source, a non-empty `marketCap`, `trailingPE` or `dividendYield` that is not a number raises while the prompt is built (:169-173), and `process` turns that into a failure. The model never produces this failure: such input gives a success.
- The call to the language model (`_call_ollama`, :286). It is an HTTP call into code that is not part of this model. Its answer, or the message of the exception it raises, is a parameter of `Process`.
- The agent's status and result bookkeeping (`update_status`, `self.error`, `self.result`). `BaseAgent` is not part of this model.
- The debug `print` and `json.dumps` output (:51-95), and the `timestamp` field of the result (:361).
- `json.dumps` raises `TypeError` on a value that is not JSON, such as a `datetime`. In the source this can make the run fail at :92, where its message replaces "No historical data available for analysis", or at :95 on the first row. Inputs here hold only JSON values, so the model never produces these failures.
- The `news` input (:86). It only feeds the prompt (:177-178).
- The `fundamentals` input (:87). It is read and never used.
- The `Date` parsing by `pd.to_datetime` (:104-105). Dates are opaque strings compared for equality.
- A date that `pd.to_datetime` cannot parse, such as "n/a", or dates in mixed formats. In the source these raise at :105, for a series of any length with a `Date` column, and `process` turns that into a failure (:368-371). The model never produces this failure: such input gives a success.
- Rows here always carry `Date`, `Close` and `Volume`. Rows with some of these fields missing are not modelled; in the source they give `None` or NaN points and do not raise.
- A series with no `Close` column at all raises (:109, :183), and so does one with no `Date` column and at least 50 rows (:340). Both failures are not modelled, and neither are non-dictionary inputs or non-numeric closes.
- Floating point. Closes and means are exact reals, so rounding in pandas' rolling mean is not modelled.
- PyText.Upper: only ASCII letters are mapped. Python's `upper()` also maps other letters, and some of them to several characters (see Findings).
- `agents/data_collector_agent.py`. It fetches data over the network and calls the language model.

## Findings

| source | as written | input that shows it | evidently intended | confidence | as-written member | corrected member |
|---|---|---|---|---|---|---|
| agents/analysis_agent.py:293-301 | the marker's position is found in `analysis.upper()` but used as an index into `analysis`; `upper()` can lengthen text ('ß' becomes "SS") | "ßßRECOMMENDATION:BUY": the marker is found at 4 in the upper-cased text, and the slices of the original text start at "Y" and "UY", so the result is HOLD | the window starts right after the marker in the original reply, so the result is BUY | not executed; depends on the reply holding such characters | UpperFinding.ExpandingUpperMisreadsBuy | UpperFinding.MarkerEndsAfterMarker |
