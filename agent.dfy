/** `AnalysisAgent.process`: checks the collected stock data, picks the
    price series, computes the technical block, asks the language model for
    an analysis, reads the recommendation and confidence out of the reply and
    assembles the chart series. Every failure becomes `{success: False, error}`. */
module AnalysisAgent {
  import opened Wrappers
  import opened Extraction
  import opened Indicators
  import opened ChartData

  const InvalidInputMessage := "Invalid input data"
  const NoHistoryMessage := "No historical data available for analysis"

  /** The fields of the collector's output that the analysis reads. Absent
      fields take the defaults the source gives them: `success` false,
      strings empty, lists and dictionaries empty, `period` nothing. */
  datatype Input = Input(
    success: bool,
    symbol: string,
    period: Option<string>,
    periodDescription: string,
    historicalData: seq<Bar>,            // historical_data.data
    historicalInfo: map<string, string>, // historical_data.info
    chartData: seq<Bar>,                 // chart_data
    companyInfo: map<string, string>     // company_info
  )

  /** What the call to the language model gives back: its text, or the
      message of the exception it raised. */
  datatype Reply = Answer(text: string) | Raised(message: string)

  datatype Output =
    | Success(symbol: string, period: Option<string>, periodDescription: string,
              companyInfo: map<string, string>, analysis: string,
              recommendation: Recommendation, confidence: Confidence,
              technical: Technical, chart: seq<ChartPoint>)
    | Failure(error: string)

  /** The price series analysed: `historical_data.data`, or `chart_data`
      when the former is empty. It is empty only when both are. */
  function SeriesOf(input: Input): (rows: seq<Bar>)
    ensures rows == [] <==> input.historicalData == [] && input.chartData == []
    ensures input.historicalData != [] ==> rows == input.historicalData
    ensures input.historicalData == [] ==> rows == input.chartData
  {
    if input.historicalData == [] && input.chartData != [] then input.chartData else input.historicalData
  }

  /** `historical_data.info`, or `company_info` when the former is empty. It
      is empty only when both are. */
  function CompanyInfoOf(input: Input): (info: map<string, string>)
    ensures info == map[] <==> input.historicalInfo == map[] && input.companyInfo == map[]
    ensures input.historicalInfo != map[] ==> info == input.historicalInfo
    ensures input.historicalInfo == map[] ==> info == input.companyInfo
  {
    if input.historicalInfo == map[] then input.companyInfo else input.historicalInfo
  }

  /** One run of the analysis on `input`, with `reply` standing for what the
      language model answers. */
  method Process(input: Input, reply: Reply) returns (out: Output)
    ensures out.Success? <==> input.success && SeriesOf(input) != [] && reply.Answer?
    ensures !input.success ==> out == Failure(InvalidInputMessage)
    ensures input.success && input.historicalData == [] && input.chartData == [] ==> out == Failure(NoHistoryMessage)
    ensures input.success && SeriesOf(input) != [] && reply.Raised? ==> out == Failure(reply.message)
    ensures out.Success? ==>
      && out.symbol == input.symbol
      && out.period == input.period
      && out.periodDescription == input.periodDescription
      && out.companyInfo == CompanyInfoOf(input)
      && out.analysis == reply.text
      && out.recommendation == RecommendationOf(reply.text)
      && out.confidence == ConfidenceOf(reply.text)
      && out.technical == TechnicalAnalysis(Closes(SeriesOf(input)))
      && |out.chart| == |SeriesOf(input)|
      && (forall i :: 0 <= i < |out.chart| ==> out.chart[i] == PointFor(SeriesOf(input), SeriesOf(input)[i]))
  {
    if !input.success {
      return Failure(InvalidInputMessage);
    }
    var rows := input.historicalData;
    if rows == [] && input.chartData != [] {
      rows := input.chartData;
    }
    var info := input.historicalInfo;
    if info == map[] {
      info := input.companyInfo;
    }
    if rows == [] {
      return Failure(NoHistoryMessage);
    }
    var technical := TechnicalAnalysis(Closes(rows));
    if reply.Raised? {
      return Failure(reply.message);
    }
    var analysis := reply.text;
    var recommendation := ExtractRecommendation(analysis);
    var confidence := ExtractConfidence(analysis);
    var chart := BuildChartData(rows);
    out := Success(input.symbol, input.period, input.periodDescription, info, analysis,
                   recommendation, confidence, technical, chart);
  }
}
