/** How the analysis agent reads its verdict out of the language model's reply:
    for each marker pattern in turn it finds the marker's first occurrence in
    the upper-cased reply, cuts a bounded slice of the original reply after it,
    strips it, and looks for a keyword near its start. */
module Extraction {
  import opened Wrappers
  import opened PyText

  datatype Recommendation = Buy | Sell | Hold
  datatype Confidence = High | Medium | Low

  const RecommendationPatterns: seq<string> := ["RECOMMENDATION:", "**RECOMMENDATION:**", "RECOMMENDATION"]
  const ConfidencePatterns: seq<string> := ["CONFIDENCE:", "**CONFIDENCE:**", "CONFIDENCE"]

  /** How much of the reply after a marker is cut out, and how much of that,
      once stripped, is searched for a keyword. */
  const RecommendationSlice: nat := 100
  const RecommendationWindow: nat := 30
  const ConfidenceSlice: nat := 50
  const ConfidenceWindow: nat := 15

  /** The position just past the first case-insensitive occurrence of
      `pattern` in `text`, if there is one. */
  function MarkerEnd(text: string, pattern: string): (e: Option<nat>)
    ensures e.Some? <==> Contains(Upper(text), Upper(pattern))
    ensures e.Some? ==> |pattern| <= e.value <= |text|
  {
    var upper := Upper(text);
    if Contains(upper, Upper(pattern)) then Some(Find(upper, Upper(pattern)).value + |pattern|) else None
  }

  /** Only the first occurrence of the marker counts: the marker, in any
      case, ends where the window starts, and it occurs nowhere earlier. */
  lemma MarkerIsFirstOccurrence(text: string, pattern: string)
    requires MarkerEnd(text, pattern).Some?
    ensures MatchAt(Upper(text), Upper(pattern), MarkerEnd(text, pattern).value - |pattern|)
    ensures forall j :: 0 <= j < MarkerEnd(text, pattern).value - |pattern| ==> !MatchAt(Upper(text), Upper(pattern), j)
  {
  }

  /** The stripped slice of `sliceLen` characters from `start`, cut down to
      its first `windowLen` characters. */
  function WindowAfter(text: string, start: nat, sliceLen: nat, windowLen: nat): (w: string)
    ensures |w| <= windowLen
  {
    Prefix(Strip(Slice(text, start, start + sliceLen)), windowLen)
  }

  /** The window after the first occurrence of the marker; `None` when the
      marker is absent. */
  function MarkerWindow(text: string, pattern: string, sliceLen: nat, windowLen: nat): (w: Option<string>)
    ensures w.Some? <==> MarkerEnd(text, pattern).Some?
    ensures w.Some? ==> |w.value| <= windowLen
  {
    match MarkerEnd(text, pattern)
    case None => None
    case Some(start) => Some(WindowAfter(text, start, sliceLen, windowLen))
  }

  /** What one marker pattern decides: the keyword found in its window, if any. */
  function Verdict<L>(text: string, pattern: string, sliceLen: nat, windowLen: nat,
                      keyword: string -> Option<L>): Option<L>
  {
    match MarkerWindow(text, pattern, sliceLen, windowLen)
    case None => None
    case Some(w) => keyword(w)
  }

  /** The verdict of each pattern, in the order the patterns are tried. */
  function Verdicts<L>(text: string, patterns: seq<string>, sliceLen: nat, windowLen: nat,
                       keyword: string -> Option<L>): (vs: seq<Option<L>>)
    ensures |vs| == |patterns|
  {
    seq(|patterns|, k requires 0 <= k < |patterns| => Verdict(text, patterns[k], sliceLen, windowLen, keyword))
  }

  /** The patterns are tried in order and the first one with a verdict decides. */
  function FirstDecided<L>(verdicts: seq<Option<L>>): Option<L> {
    if verdicts == [] then None
    else if verdicts[0].Some? then verdicts[0]
    else FirstDecided(verdicts[1..])
  }

  /** No verdict among the first `k`. */
  predicate UndecidedBefore<L>(verdicts: seq<Option<L>>, k: nat)
    requires k <= |verdicts|
  {
    forall j :: 0 <= j < k ==> verdicts[j].None?
  }

  /** The scan yields `l` exactly when some verdict is `l` and no earlier one
      exists. */
  lemma {:induction false} FirstDecidedIsFirst<L>(verdicts: seq<Option<L>>, l: L)
    ensures FirstDecided(verdicts) == Some(l) <==>
      exists k :: 0 <= k < |verdicts| && verdicts[k] == Some(l) && UndecidedBefore(verdicts, k)
  {
    if verdicts != [] {
      var rest := verdicts[1..];
      FirstDecidedIsFirst(rest, l);
      if verdicts[0].None? {
        if FirstDecided(verdicts) == Some(l) {
          var k :| 0 <= k < |rest| && rest[k] == Some(l) && UndecidedBefore(rest, k);
          assert verdicts[k + 1] == Some(l) && UndecidedBefore(verdicts, k + 1);
        }
        if exists k :: 0 <= k < |verdicts| && verdicts[k] == Some(l) && UndecidedBefore(verdicts, k) {
          var k :| 0 <= k < |verdicts| && verdicts[k] == Some(l) && UndecidedBefore(verdicts, k);
          assert k >= 1 && rest[k - 1] == Some(l) && UndecidedBefore(rest, k - 1);
        }
      } else {
        assert UndecidedBefore(verdicts, 0);
      }
    }
  }

  /** The scan yields nothing exactly when there is no verdict at all. */
  lemma {:induction false} FirstDecidedNone<L>(verdicts: seq<Option<L>>)
    ensures FirstDecided(verdicts).None? <==> UndecidedBefore(verdicts, |verdicts|)
  {
    if verdicts != [] {
      var rest := verdicts[1..];
      FirstDecidedNone(rest);
      assert UndecidedBefore(verdicts, |verdicts|) <==> verdicts[0].None? && UndecidedBefore(rest, |rest|);
    }
  }

  /** The first decided verdict of a suffix starting at an undecided verdict
      is that of the suffix after it. */
  lemma FirstDecidedSkips<L>(verdicts: seq<Option<L>>, i: nat)
    requires i < |verdicts| && verdicts[i].None?
    ensures FirstDecided(verdicts[i..]) == FirstDecided(verdicts[i + 1..])
  {
    assert verdicts[i..][1..] == verdicts[i + 1..];
  }

  /** The window after `pattern` lies inside the reply: any keyword found in
      it occurs in the original-case reply, at or after the end of the marker
      and within the `sliceLen` characters that follow it. */
  predicate KeywordAfterMarker(text: string, pattern: string, kw: string, sliceLen: nat) {
    MarkerEnd(text, pattern).Some? &&
    exists j :: MarkerEnd(text, pattern).value <= j && j + |kw| <= MarkerEnd(text, pattern).value + sliceLen &&
      MatchAt(text, kw, j)
  }

  /** A keyword found in the window from `start` occurs in the reply at or
      after `start` and within `sliceLen` characters of it. */
  lemma KeywordInWindow(text: string, start: nat, sliceLen: nat, windowLen: nat, kw: string)
    requires start <= |text|
    requires Contains(WindowAfter(text, start, sliceLen, windowLen), kw)
    ensures exists j :: start <= j && j + |kw| <= start + sliceLen && MatchAt(text, kw, j)
  {
    var sl := Slice(text, start, start + sliceLen);
    var w := WindowAfter(text, start, sliceLen, windowLen);
    var a := start + StripOffset(sl);
    StrippedPrefixInPiece(text, start, start + |sl|, sl, windowLen);
    MatchInPiece(text, a, a + |w|, w, kw);
    var j := a + Find(w, kw).value;
    assert start <= j && j + |kw| <= start + sliceLen && MatchAt(text, kw, j);
  }

  /** A keyword found in the window after a marker occurs in the
      original-case reply, after the marker and within `sliceLen` characters
      of its end. */
  lemma WindowInText(text: string, pattern: string, sliceLen: nat, windowLen: nat, kw: string)
    requires MarkerWindow(text, pattern, sliceLen, windowLen).Some?
    requires Contains(MarkerWindow(text, pattern, sliceLen, windowLen).value, kw)
    ensures KeywordAfterMarker(text, pattern, kw, sliceLen)
    ensures Contains(text, kw)
  {
    var e := MarkerEnd(text, pattern).value;
    KeywordInWindow(text, e, sliceLen, windowLen, kw);
    var j :| e <= j && j + |kw| <= e + sliceLen && MatchAt(text, kw, j);
    ContainsIff(text, kw, j);
  }

  /** Before the first verdict, the scan of the whole list and of the suffix
      from `k` agree. */
  lemma {:induction false} FirstDecidedFrom<L>(verdicts: seq<Option<L>>, k: nat)
    requires k <= |verdicts| && UndecidedBefore(verdicts, k)
    ensures FirstDecided(verdicts) == FirstDecided(verdicts[k..])
  {
    if k > 0 {
      FirstDecidedFrom(verdicts, k - 1);
      FirstDecidedSkips(verdicts, k - 1);
    }
  }

  /** Text without `p` holds no longer pattern `x + p + y` either. */
  lemma PartMissing(s: string, pattern: string, x: string, p: string, y: string)
    requires pattern == x + p + y && !Contains(s, p)
    ensures !Contains(s, pattern)
  {
    if Contains(s, pattern) {
      ContainsPart(s, x, p, y);
    }
  }

  /** When no marker pattern occurs in the reply, no pattern decides. */
  lemma NoMarkerNoVerdict<L>(text: string, patterns: seq<string>, sliceLen: nat, windowLen: nat,
                             keyword: string -> Option<L>)
    requires forall k :: 0 <= k < |patterns| ==> !Contains(Upper(text), Upper(patterns[k]))
    ensures FirstDecided(Verdicts(text, patterns, sliceLen, windowLen, keyword)).None?
  {
    var verdicts := Verdicts(text, patterns, sliceLen, windowLen, keyword);
    forall k | 0 <= k < |patterns|
      ensures verdicts[k].None?
    {
      assert verdicts[k] == Verdict(text, patterns[k], sliceLen, windowLen, keyword);
    }
    FirstDecidedNone(verdicts);
  }

  // ---------------------------------------------------------------- recommendation

  /** BUY is tested before SELL, SELL before HOLD. */
  function RecommendationKeyword(window: string): Option<Recommendation> {
    if Contains(window, "BUY") then Some(Buy)
    else if Contains(window, "SELL") then Some(Sell)
    else if Contains(window, "HOLD") then Some(Hold)
    else None
  }

  function RecommendationVerdicts(text: string): seq<Option<Recommendation>> {
    Verdicts(text, RecommendationPatterns, RecommendationSlice, RecommendationWindow, RecommendationKeyword)
  }

  /** The recommendation read from a reply, HOLD when no pattern decides. */
  function RecommendationOf(text: string): Recommendation {
    FirstDecided(RecommendationVerdicts(text)).GetOr(Hold)
  }

  /** The recommendation loop of the agent: patterns in order, the first whose
      window holds a keyword sets the recommendation and stops the loop. */
  method ExtractRecommendation(analysis: string) returns (recommendation: Recommendation)
    ensures recommendation == RecommendationOf(analysis)
  {
    recommendation := Hold;
    var analysisUpper := Upper(analysis);
    ghost var verdicts := RecommendationVerdicts(analysis);
    for i := 0 to |RecommendationPatterns|
      invariant recommendation == Hold
      invariant FirstDecided(verdicts[i..]) == FirstDecided(verdicts)
    {
      var pattern := RecommendationPatterns[i];
      assert verdicts[i] == Verdict(analysis, pattern, RecommendationSlice, RecommendationWindow, RecommendationKeyword);
      if Contains(analysisUpper, Upper(pattern)) {
        var idx := Find(analysisUpper, Upper(pattern)).value;
        var recPart := Strip(Slice(analysis, idx + |pattern|, idx + |pattern| + RecommendationSlice));
        assert MarkerWindow(analysis, pattern, RecommendationSlice, RecommendationWindow) == Some(Prefix(recPart, RecommendationWindow));
        assert verdicts[i..][0] == verdicts[i] == RecommendationKeyword(Prefix(recPart, RecommendationWindow));
        if Contains(Prefix(recPart, RecommendationWindow), "BUY") {
          recommendation := Buy;
          break;
        } else if Contains(Prefix(recPart, RecommendationWindow), "SELL") {
          recommendation := Sell;
          break;
        } else if Contains(Prefix(recPart, RecommendationWindow), "HOLD") {
          recommendation := Hold;
          break;
        }
      }
      FirstDecidedSkips(verdicts, i);
    }
  }

  /** Within the first pattern whose window holds a keyword, BUY beats
      SELL and SELL beats HOLD; a window without a keyword passes the
      decision on to the later patterns. */
  lemma RecommendationPriority(text: string, k: nat, w: string)
    requires k < |RecommendationPatterns|
    requires UndecidedBefore(RecommendationVerdicts(text), k)
    requires MarkerWindow(text, RecommendationPatterns[k], RecommendationSlice, RecommendationWindow) == Some(w)
    ensures Contains(w, "BUY") ==> RecommendationOf(text) == Buy
    ensures !Contains(w, "BUY") && Contains(w, "SELL") ==> RecommendationOf(text) == Sell
    ensures !Contains(w, "BUY") && !Contains(w, "SELL") && Contains(w, "HOLD") ==> RecommendationOf(text) == Hold
    ensures RecommendationKeyword(w).None? ==> RecommendationOf(text) == FirstDecided(RecommendationVerdicts(text)[k + 1..]).GetOr(Hold)
  {
    var verdicts := RecommendationVerdicts(text);
    FirstDecidedFrom(verdicts, k);
    assert verdicts[k..][0] == verdicts[k] == RecommendationKeyword(w);
    assert verdicts[k..][1..] == verdicts[k + 1..];
  }

  /** The recommendation marker patterns are written in capitals. */
  lemma RecommendationPatternsInCapitals()
    ensures forall k :: 0 <= k < |RecommendationPatterns| ==> Upper(RecommendationPatterns[k]) == RecommendationPatterns[k]
  {
    UpperOfCapitals("RECOMMENDATION:");
    UpperOfCapitals("**RECOMMENDATION:**");
    UpperOfCapitals("RECOMMENDATION");
  }

  /** Every recommendation marker pattern holds the word RECOMMENDATION, so text
      without that word holds none of them. */
  lemma RecommendationMarkersMissing(u: string)
    requires !Contains(u, "RECOMMENDATION")
    ensures forall k :: 0 <= k < |RecommendationPatterns| ==> !Contains(u, Upper(RecommendationPatterns[k]))
  {
    RecommendationPatternsInCapitals();
    PartMissing(u, "RECOMMENDATION:", "", "RECOMMENDATION", ":");
    PartMissing(u, "**RECOMMENDATION:**", "**", "RECOMMENDATION", ":**");
    PartMissing(u, "RECOMMENDATION", "", "RECOMMENDATION", "");
  }

  /** Without the word RECOMMENDATION anywhere in the reply, in any case, the
      recommendation is HOLD. */
  lemma RecommendationWithoutMarker(text: string)
    requires !Contains(Upper(text), "RECOMMENDATION")
    ensures RecommendationOf(text) == Hold
  {
    RecommendationMarkersMissing(Upper(text));
    NoMarkerNoVerdict(text, RecommendationPatterns, RecommendationSlice, RecommendationWindow, RecommendationKeyword);
  }

  /** The keyword test is case-sensitive and looks only near a marker: BUY
      (or SELL) comes out only when the reply itself, in capitals, holds
      that word within the 100 characters after some marker pattern. */
  lemma RecommendationNeedsCapitalKeyword(text: string)
    ensures RecommendationOf(text) == Buy ==>
      exists k :: 0 <= k < |RecommendationPatterns| && KeywordAfterMarker(text, RecommendationPatterns[k], "BUY", RecommendationSlice)
    ensures RecommendationOf(text) == Sell ==>
      exists k :: 0 <= k < |RecommendationPatterns| && KeywordAfterMarker(text, RecommendationPatterns[k], "SELL", RecommendationSlice)
    ensures !Contains(text, "BUY") && !Contains(text, "SELL") ==> RecommendationOf(text) == Hold
  {
    var ps := RecommendationPatterns;
    var verdicts := RecommendationVerdicts(text);
    var r := RecommendationOf(text);
    if r != Hold {
      FirstDecidedIsFirst(verdicts, r);
      var k :| 0 <= k < |ps| && verdicts[k] == Some(r);
      if r == Buy {
        WindowInText(text, ps[k], RecommendationSlice, RecommendationWindow, "BUY");
      } else {
        WindowInText(text, ps[k], RecommendationSlice, RecommendationWindow, "SELL");
      }
    }
  }

  // ---------------------------------------------------------------- confidence

  /** HIGH is tested before MEDIUM, MEDIUM before LOW. */
  function ConfidenceKeyword(window: string): Option<Confidence> {
    if Contains(window, "HIGH") then Some(High)
    else if Contains(window, "MEDIUM") then Some(Medium)
    else if Contains(window, "LOW") then Some(Low)
    else None
  }

  function ConfidenceVerdicts(text: string): seq<Option<Confidence>> {
    Verdicts(text, ConfidencePatterns, ConfidenceSlice, ConfidenceWindow, ConfidenceKeyword)
  }

  /** The confidence read from a reply, LOW when no pattern decides. */
  function ConfidenceOf(text: string): Confidence {
    FirstDecided(ConfidenceVerdicts(text)).GetOr(Low)
  }

  /** The confidence loop of the agent: patterns in order, the first whose
      window holds a keyword sets the confidence and stops the loop. */
  method ExtractConfidence(analysis: string) returns (confidence: Confidence)
    ensures confidence == ConfidenceOf(analysis)
  {
    confidence := Low;
    var analysisUpper := Upper(analysis);
    ghost var verdicts := ConfidenceVerdicts(analysis);
    for i := 0 to |ConfidencePatterns|
      invariant confidence == Low
      invariant FirstDecided(verdicts[i..]) == FirstDecided(verdicts)
    {
      var pattern := ConfidencePatterns[i];
      assert verdicts[i] == Verdict(analysis, pattern, ConfidenceSlice, ConfidenceWindow, ConfidenceKeyword);
      if Contains(analysisUpper, Upper(pattern)) {
        var idx := Find(analysisUpper, Upper(pattern)).value;
        var confPart := Strip(Slice(analysis, idx + |pattern|, idx + |pattern| + ConfidenceSlice));
        assert MarkerWindow(analysis, pattern, ConfidenceSlice, ConfidenceWindow) == Some(Prefix(confPart, ConfidenceWindow));
        assert verdicts[i..][0] == verdicts[i] == ConfidenceKeyword(Prefix(confPart, ConfidenceWindow));
        if Contains(Prefix(confPart, ConfidenceWindow), "HIGH") {
          confidence := High;
          break;
        } else if Contains(Prefix(confPart, ConfidenceWindow), "MEDIUM") {
          confidence := Medium;
          break;
        } else if Contains(Prefix(confPart, ConfidenceWindow), "LOW") {
          confidence := Low;
          break;
        }
      }
      FirstDecidedSkips(verdicts, i);
    }
  }

  /** Within the first pattern whose window holds a keyword, HIGH beats
      MEDIUM and MEDIUM beats LOW; a window without a keyword passes the
      decision on to the later patterns. */
  lemma ConfidencePriority(text: string, k: nat, w: string)
    requires k < |ConfidencePatterns|
    requires UndecidedBefore(ConfidenceVerdicts(text), k)
    requires MarkerWindow(text, ConfidencePatterns[k], ConfidenceSlice, ConfidenceWindow) == Some(w)
    ensures Contains(w, "HIGH") ==> ConfidenceOf(text) == High
    ensures !Contains(w, "HIGH") && Contains(w, "MEDIUM") ==> ConfidenceOf(text) == Medium
    ensures !Contains(w, "HIGH") && !Contains(w, "MEDIUM") && Contains(w, "LOW") ==> ConfidenceOf(text) == Low
    ensures ConfidenceKeyword(w).None? ==> ConfidenceOf(text) == FirstDecided(ConfidenceVerdicts(text)[k + 1..]).GetOr(Low)
  {
    var verdicts := ConfidenceVerdicts(text);
    FirstDecidedFrom(verdicts, k);
    assert verdicts[k..][0] == verdicts[k] == ConfidenceKeyword(w);
    assert verdicts[k..][1..] == verdicts[k + 1..];
  }

  /** The confidence marker patterns are written in capitals. */
  lemma ConfidencePatternsInCapitals()
    ensures forall k :: 0 <= k < |ConfidencePatterns| ==> Upper(ConfidencePatterns[k]) == ConfidencePatterns[k]
  {
    UpperOfCapitals("CONFIDENCE:");
    UpperOfCapitals("**CONFIDENCE:**");
    UpperOfCapitals("CONFIDENCE");
  }

  /** Every confidence marker pattern holds the word CONFIDENCE, so text
      without that word holds none of them. */
  lemma ConfidenceMarkersMissing(u: string)
    requires !Contains(u, "CONFIDENCE")
    ensures forall k :: 0 <= k < |ConfidencePatterns| ==> !Contains(u, Upper(ConfidencePatterns[k]))
  {
    ConfidencePatternsInCapitals();
    PartMissing(u, "CONFIDENCE:", "", "CONFIDENCE", ":");
    PartMissing(u, "**CONFIDENCE:**", "**", "CONFIDENCE", ":**");
    PartMissing(u, "CONFIDENCE", "", "CONFIDENCE", "");
  }

  /** Without the word CONFIDENCE anywhere in the reply, in any case, the
      confidence is LOW. */
  lemma ConfidenceWithoutMarker(text: string)
    requires !Contains(Upper(text), "CONFIDENCE")
    ensures ConfidenceOf(text) == Low
  {
    ConfidenceMarkersMissing(Upper(text));
    NoMarkerNoVerdict(text, ConfidencePatterns, ConfidenceSlice, ConfidenceWindow, ConfidenceKeyword);
  }

  /** The keyword test is case-sensitive and looks only near a marker: HIGH
      (or MEDIUM) comes out only when the reply itself, in capitals, holds
      that word within the 50 characters after some marker pattern. */
  lemma ConfidenceNeedsCapitalKeyword(text: string)
    ensures ConfidenceOf(text) == High ==>
      exists k :: 0 <= k < |ConfidencePatterns| && KeywordAfterMarker(text, ConfidencePatterns[k], "HIGH", ConfidenceSlice)
    ensures ConfidenceOf(text) == Medium ==>
      exists k :: 0 <= k < |ConfidencePatterns| && KeywordAfterMarker(text, ConfidencePatterns[k], "MEDIUM", ConfidenceSlice)
    ensures !Contains(text, "HIGH") && !Contains(text, "MEDIUM") ==> ConfidenceOf(text) == Low
  {
    var ps := ConfidencePatterns;
    var verdicts := ConfidenceVerdicts(text);
    var r := ConfidenceOf(text);
    if r != Low {
      FirstDecidedIsFirst(verdicts, r);
      var k :| 0 <= k < |ps| && verdicts[k] == Some(r);
      if r == High {
        WindowInText(text, ps[k], ConfidenceSlice, ConfidenceWindow, "HIGH");
      } else {
        WindowInText(text, ps[k], ConfidenceSlice, ConfidenceWindow, "MEDIUM");
      }
    }
  }

  /** A reply that spells its verdict in lower case, "Recommendation: buy",
      is read as HOLD. */
  lemma LowerCaseBuyIsHold()
    ensures RecommendationOf("Recommendation: buy") == Hold
  {
    MissingFirstChar("Recommendation: buy", "BUY");
    MissingFirstChar("Recommendation: buy", "SELL");
    RecommendationNeedsCapitalKeyword("Recommendation: buy");
  }

  /** The same reply with the verdict in capitals is read as BUY: the
      marker ends at position 15 and the stripped window is "BUY". */
  lemma CapitalBuyIsBuy()
    ensures RecommendationOf("Recommendation: BUY") == Buy
  {
    var text := "Recommendation: BUY";
    var u := Upper(text);
    assert u == "RECOMMENDATION: BUY";
    RecommendationPatternsInCapitals();
    var p := RecommendationPatterns[0];
    assert MatchAt(u, p, 0);
    ContainsIff(u, p, 0);
    assert MarkerEnd(text, p) == Some(15);
    var sl := Slice(text, 15, 115);
    assert sl == " BUY";
    assert LStrip(sl) == "BUY";
    assert Strip(sl) == "BUY";
    assert Prefix("BUY", 30) == "BUY";
    assert WindowAfter(text, 15, RecommendationSlice, RecommendationWindow) == "BUY";
    assert MarkerWindow(text, p, RecommendationSlice, RecommendationWindow) == Some("BUY");
    ContainsIff("BUY", "BUY", 0);
    RecommendationPriority(text, 0, "BUY");
  }
}
