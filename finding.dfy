/** The marker scan as written, with Python's full `upper()`, which can turn
    one character into two. The position of the marker is found in the
    upper-cased reply but used in the original reply, so every such
    character before the marker moves the window one place to the right. */
module UpperFinding {
  import opened Wrappers
  import opened PyText
  import opened Extraction

  /** `c.upper()` for ASCII letters and the sharp s, whose upper case is "SS". */
  function FullUpperChar(c: char): (u: string)
    ensures 1 <= |u| <= 2
  {
    if c == 'ß' then "SS" else [UpperChar(c)]
  }

  /** `s.upper()` for text of ASCII characters and sharp s. */
  function FullUpper(s: string): (u: string)
    ensures |s| <= |u| <= 2 * |s|
  {
    if s == [] then [] else FullUpperChar(s[0]) + FullUpper(s[1..])
  }

  /** Where the window after `pattern` starts as written: the marker's
      position in the fully upper-cased reply plus the marker's length. */
  function MarkerEndAsWritten(text: string, pattern: string): (e: Option<nat>)
    ensures e.Some? <==> Contains(FullUpper(text), Upper(pattern))
  {
    var upper := FullUpper(text);
    if Contains(upper, Upper(pattern)) then Some(Find(upper, Upper(pattern)).value + |pattern|) else None
  }

  function VerdictAsWritten(text: string, pattern: string): Option<Recommendation> {
    match MarkerEndAsWritten(text, pattern)
    case None => None
    case Some(start) => RecommendationKeyword(WindowAfter(text, start, RecommendationSlice, RecommendationWindow))
  }

  /** The recommendation as the source computes it when `upper()` lengthens
      the reply. */
  function RecommendationAsWritten(text: string): Recommendation {
    FirstDecided([VerdictAsWritten(text, RecommendationPatterns[0]),
                  VerdictAsWritten(text, RecommendationPatterns[1]),
                  VerdictAsWritten(text, RecommendationPatterns[2])]).GetOr(Hold)
  }

  lemma {:induction false} FullUpperAppend(x: string, y: string)
    ensures FullUpper(x + y) == FullUpper(x) + FullUpper(y)
  {
    if x == [] {
      assert x + y == y;
    } else {
      assert (x + y)[1..] == x[1..] + y;
      FullUpperAppend(x[1..], y);
    }
  }

  /** Text of ASCII capitals and punctuation is its own full upper case. */
  lemma {:induction false} FullUpperOfCapitals(s: string)
    requires forall i :: 0 <= i < |s| ==> !IsLower(s[i]) && s[i] != 'ß'
    ensures FullUpper(s) == s
  {
    if s != [] {
      FullUpperOfCapitals(s[1..]);
    }
  }

  /** A pattern that starts `tail` occurs in `head + tail` right after `head`. */
  lemma MatchAfterHead(head: string, tail: string, p: string)
    requires |p| <= |tail| && tail[..|p|] == p
    ensures MatchAt(head + tail, p, |head|)
  {
    var x := (head + tail)[|head|..|head| + |p|];
    assert forall j :: 0 <= j < |p| ==> x[j] == tail[j];
  }

  // The example reply is passed around as a variable equal to its text:
  // applied to a literal, the recursive functions would be unfolded in full.

  lemma SharpHeadUpper(head: string)
    requires head == "ßß"
    ensures FullUpper(head) == "SSSS"
  {
    assert head[1..] == "ß";
    assert head[1..][1..] == [];
  }

  lemma VerdictInCapitals(tail: string)
    requires tail == "RECOMMENDATION:BUY"
    ensures forall i :: 0 <= i < |tail| ==> !IsLower(tail[i]) && tail[i] != 'ß'
  {
  }

  /** The full upper case of "ßß" + "RECOMMENDATION:BUY" is
      "SSSSRECOMMENDATION:BUY". */
  lemma SharpReplyFullUpper(head: string, tail: string)
    requires head == "ßß" && tail == "RECOMMENDATION:BUY"
    ensures FullUpper(head + tail) == "SSSS" + tail
  {
    FullUpperAppend(head, tail);
    VerdictInCapitals(tail);
    FullUpperOfCapitals(tail);
    SharpHeadUpper(head);
  }

  /** Its ASCII upper case is itself. */
  lemma SharpReplyUpper(head: string, tail: string)
    requires head == "ßß" && tail == "RECOMMENDATION:BUY"
    ensures Upper(head + tail) == head + tail
  {
    VerdictInCapitals(tail);
    var text := head + tail;
    assert forall i :: 0 <= i < |text| ==> !IsLower(text[i]) by {
      assert forall i :: 0 <= i < |head| ==> text[i] == head[i];
      assert forall i :: |head| <= i < |text| ==> text[i] == tail[i - |head|];
    }
    UpperOfCapitals(text);
  }

  /** The first occurrence of a pattern that starts `tail`, in a text
      `head + tail` whose `head` lacks the pattern's first character, is
      right after `head`. */
  lemma FoundAfterHead(head: string, tail: string, p: string)
    requires 0 < |p| <= |tail| && tail[..|p|] == p
    requires forall j :: 0 <= j < |head| ==> head[j] != p[0]
    ensures Find(head + tail, p) == Some(|head|)
  {
    var s := head + tail;
    MatchAfterHead(head, tail, p);
    ContainsIff(s, p, |head|);
    forall j | 0 <= j < |head|
      ensures !MatchAt(s, p, j)
    {
      assert s[j] == head[j];
    }
  }

  lemma FullSharpReplyHasNoStar(head: string, tail: string)
    requires head == "ßß" && tail == "RECOMMENDATION:BUY"
    ensures !Contains(FullUpper(head + tail), Upper(RecommendationPatterns[1]))
  {
    var full := FullUpper(head + tail);
    var s4 := "SSSS";
    SharpReplyFullUpper(head, tail);
    assert forall i :: 0 <= i < |full| ==> full[i] != '*' by {
      assert forall i :: 0 <= i < |s4| ==> full[i] == s4[i];
      assert forall i :: |s4| <= i < |full| ==> full[i] == tail[i - |s4|];
    }
    RecommendationPatternsInCapitals();
    MissingFirstChar(full, RecommendationPatterns[1]);
  }

  /** As written, the two markers that occur are found at 4 of the upper-cased
      reply, so their windows start at 19 and 18 of the 20-character reply. */
  lemma SharpReplyMarkersAsWritten(head: string, tail: string)
    requires head == "ßß" && tail == "RECOMMENDATION:BUY"
    ensures MarkerEndAsWritten(head + tail, RecommendationPatterns[0]) == Some(19)
    ensures MarkerEndAsWritten(head + tail, RecommendationPatterns[1]) == None
    ensures MarkerEndAsWritten(head + tail, RecommendationPatterns[2]) == Some(18)
  {
    SharpReplyFullUpper(head, tail);
    RecommendationPatternsInCapitals();
    var p0, p2 := RecommendationPatterns[0], RecommendationPatterns[2];
    assert tail[..|p0|] == p0 && tail[..|p2|] == p2;
    FoundAfterHead("SSSS", tail, p0);
    FoundAfterHead("SSSS", tail, p2);
    FullSharpReplyHasNoStar(head, tail);
  }

  /** A one- or two-letter window holds no keyword. */
  lemma NoKeywordIn(w: string)
    requires |w| <= 2
    ensures RecommendationKeyword(w).None?
  {
  }

  /** The windows as written hold "Y" and "UY": no keyword, so HOLD. */
  lemma SharpReplyReadsHold(head: string, tail: string)
    requires head == "ßß" && tail == "RECOMMENDATION:BUY"
    ensures RecommendationAsWritten(head + tail) == Hold
  {
    var text := head + tail;
    SharpReplyMarkersAsWritten(head, tail);
    var w0 := WindowAfter(text, 19, RecommendationSlice, RecommendationWindow);
    var w2 := WindowAfter(text, 18, RecommendationSlice, RecommendationWindow);
    StrippedPrefixInPiece(text, 19, 20, text[19..20], RecommendationWindow);
    StrippedPrefixInPiece(text, 18, 20, text[18..20], RecommendationWindow);
    NoKeywordIn(w0);
    NoKeywordIn(w2);
    var vs := [VerdictAsWritten(text, RecommendationPatterns[0]),
               VerdictAsWritten(text, RecommendationPatterns[1]),
               VerdictAsWritten(text, RecommendationPatterns[2])];
    assert vs[0] == RecommendationKeyword(w0) == None;
    assert vs[1] == None;
    assert vs[2] == RecommendationKeyword(w2) == None;
    FirstDecidedNone(vs);
  }

  /** With the window placed right after the marker, the first pattern's
      window starts with "BUY", so BUY. */
  lemma SharpReplyReadsBuy(head: string, tail: string)
    requires head == "ßß" && tail == "RECOMMENDATION:BUY"
    ensures RecommendationOf(head + tail) == Buy
  {
    var text := head + tail;
    SharpReplyUpper(head, tail);
    RecommendationPatternsInCapitals();
    var p0 := RecommendationPatterns[0];
    assert tail[..|p0|] == p0;
    FoundAfterHead(head, tail, p0);
    assert MarkerEnd(text, p0) == Some(17);
    var sl := Slice(text, 17, 17 + RecommendationSlice);
    assert sl == text[17..20];
    assert sl == "BUY";
    var w := WindowAfter(text, 17, RecommendationSlice, RecommendationWindow);
    assert LStrip(sl) == sl && RStrip(sl) == sl;
    assert w == "BUY";
    ContainsIff(w, "BUY", 0);
    RecommendationPriority(text, 0, w);
  }

  /** Two sharp s before "RECOMMENDATION:BUY" make the source read HOLD: the
      marker is found at 4 in "SSSSRECOMMENDATION:BUY", so the windows start at
      19 and 18 of the 20-character reply and hold "Y" and "UY". With the
      window placed right after the marker, the reply is read as BUY. */
  lemma ExpandingUpperMisreadsBuy(text: string)
    requires text == "ßßRECOMMENDATION:BUY"
    ensures RecommendationAsWritten(text) == Hold
    ensures RecommendationOf(text) == Buy
  {
    var head, tail := "ßß", "RECOMMENDATION:BUY";
    assert text == head + tail;
    SharpReplyReadsHold(head, tail);
    SharpReplyReadsBuy(head, tail);
  }

  /** Upper-casing a piece of the reply gives the same piece of the
      upper-cased reply. */
  lemma UpperOfPiece(s: string, a: nat, b: nat)
    requires a <= b <= |s|
    ensures Upper(s[a..b]) == Upper(s)[a..b]
  {
    var x, y := Upper(s[a..b]), Upper(s)[a..b];
    assert forall j :: 0 <= j < b - a ==> x[j] == y[j];
  }

  /** With a length-preserving `upper()`, the window starts right after the
      marker in the original reply: the characters just before it are the
      marker, up to case. */
  lemma MarkerEndsAfterMarker(text: string, pattern: string)
    requires MarkerEnd(text, pattern).Some?
    ensures Upper(text[MarkerEnd(text, pattern).value - |pattern|..MarkerEnd(text, pattern).value]) == Upper(pattern)
  {
    var e := MarkerEnd(text, pattern).value;
    MarkerIsFirstOccurrence(text, pattern);
    UpperOfPiece(text, e - |pattern|, e);
  }
}
