/** The few Python string operations the analysis agent relies on:
    `str.upper()` (on ASCII letters), slicing with non-negative bounds,
    `str.strip()`, `str.find()` and the substring test `in`. */
module PyText {
  import opened Wrappers

  /** `c.isspace()` in Python: the ASCII controls tab to carriage return,
      the four separators 0x1C-0x1F, space, and the Unicode space characters. */
  predicate IsSpace(c: char) {
    ('\t' <= c <= '\r') || ('\U{1C}' <= c <= ' ') || c == '\U{85}' || c == '\U{A0}'
    || c == '\U{1680}' || ('\U{2000}' <= c <= '\U{200A}') || c == '\U{2028}' || c == '\U{2029}'
    || c == '\U{202F}' || c == '\U{205F}' || c == '\U{3000}'
  }

  predicate IsLower(c: char) {
    'a' <= c <= 'z'
  }

  /** Upper case of one character; only the 26 ASCII letters change. */
  function UpperChar(c: char): (u: char)
    ensures !IsLower(u)
    ensures IsLower(c) || u == c
  {
    if IsLower(c) then (c as int - 32) as char else c
  }

  /** `s.upper()` for text whose letters are ASCII: one character out for one in. */
  function Upper(s: string): (u: string)
    ensures |u| == |s|
  {
    seq(|s|, i requires 0 <= i < |s| => UpperChar(s[i]))
  }

  /** Text without lower-case ASCII letters is its own upper case, so the
      marker patterns, written in capitals, are unchanged by `upper()`. */
  lemma UpperOfCapitals(s: string)
    requires forall i :: 0 <= i < |s| ==> !IsLower(s[i])
    ensures Upper(s) == s
  {
  }

  function Min(a: int, b: int): int {
    if a <= b then a else b
  }

  /** `s[lo:hi]` for non-negative bounds: both bounds are clamped to the length
      of `s`, and a slice whose clamped start passes its end is empty. */
  function Slice(s: string, lo: nat, hi: nat): (r: string)
    ensures lo <= |s| && lo <= hi ==> r == s[lo..Min(hi, |s|)]
    ensures |s| <= lo || hi <= lo ==> r == []
  {
    var a := Min(lo, |s|);
    var b := Min(hi, |s|);
    if a <= b then s[a..b] else []
  }

  /** `s[:n]`: the first `n` characters, or all of `s` when it is shorter. */
  function Prefix(s: string, n: nat): (r: string)
    ensures |r| == Min(n, |s|)
    ensures r == s[..|r|]
  {
    Slice(s, 0, n)
  }

  /** `s.lstrip()`: drops the leading white space. */
  function LStrip(s: string): (r: string)
    ensures |r| <= |s|
  {
    if |s| > 0 && IsSpace(s[0]) then LStrip(s[1..]) else s
  }

  /** `s.rstrip()`: drops the trailing white space. */
  function RStrip(s: string): (r: string)
    ensures |r| <= |s|
  {
    if |s| > 0 && IsSpace(s[|s| - 1]) then RStrip(s[..|s| - 1]) else s
  }

  /** What `lstrip()` keeps is a suffix of `s` that does not start with
      white space, and what it drops is all white space. */
  lemma {:induction false} LStripKeepsSuffix(s: string)
    ensures LStrip(s) == s[|s| - |LStrip(s)|..]
    ensures forall k :: 0 <= k < |s| - |LStrip(s)| ==> IsSpace(s[k])
    ensures LStrip(s) == [] || !IsSpace(LStrip(s)[0])
  {
    if |s| > 0 && IsSpace(s[0]) {
      LStripKeepsSuffix(s[1..]);
      assert s[1..][|s| - 1 - |LStrip(s)|..] == s[|s| - |LStrip(s)|..];
      forall k | 0 < k < |s| - |LStrip(s)|
        ensures IsSpace(s[k])
      {
        assert s[1..][k - 1] == s[k];
      }
    }
  }

  /** What `rstrip()` keeps is a prefix of `s` that does not end with white
      space, and what it drops is all white space. */
  lemma {:induction false} RStripKeepsPrefix(s: string)
    ensures RStrip(s) == s[..|RStrip(s)|]
    ensures forall k :: |RStrip(s)| <= k < |s| ==> IsSpace(s[k])
    ensures RStrip(s) == [] || !IsSpace(RStrip(s)[|RStrip(s)| - 1])
  {
    if |s| > 0 && IsSpace(s[|s| - 1]) {
      RStripKeepsPrefix(s[..|s| - 1]);
      assert s[..|s| - 1][..|RStrip(s)|] == s[..|RStrip(s)|];
      forall k | |RStrip(s)| <= k < |s| - 1
        ensures IsSpace(s[k])
      {
        assert s[..|s| - 1][k] == s[k];
      }
    }
  }

  /** How many leading characters `strip()` removes from `s`. */
  function StripOffset(s: string): nat
    ensures StripOffset(s) <= |s|
  {
    |s| - |LStrip(s)|
  }

  /** `s.strip()`. */
  function Strip(s: string): (r: string)
    ensures StripOffset(s) + |r| <= |s|
  {
    RStrip(LStrip(s))
  }

  /** `s.strip()` is the piece of `s` between its leading and its trailing
      white space: it neither starts nor ends with white space, and
      everything it drops is white space. */
  lemma StripIsPiece(s: string)
    ensures Strip(s) == s[StripOffset(s)..StripOffset(s) + |Strip(s)|]
    ensures Strip(s) == [] || (!IsSpace(Strip(s)[0]) && !IsSpace(Strip(s)[|Strip(s)| - 1]))
    ensures forall k :: 0 <= k < |s| && !(StripOffset(s) <= k < StripOffset(s) + |Strip(s)|) ==> IsSpace(s[k])
  {
    var o := StripOffset(s);
    var l := LStrip(s);
    var r := Strip(s);
    LStripKeepsSuffix(s);
    RStripKeepsPrefix(l);
    assert l == s[o..];
    PieceOfPiece(s, o, |s|, l, 0, |r|);
    assert r == s[o..o + |r|];
    forall k | o + |r| <= k < |s|
      ensures IsSpace(s[k])
    {
      assert l[k - o] == s[k];
    }
    if r != [] {
      assert r[0] == l[0];
    }
  }

  /** A piece of a piece `t == s[a..b]` of `s` is a piece of `s`. */
  lemma PieceOfPiece(s: string, a: nat, b: nat, t: string, o: nat, n: nat)
    requires a <= b <= |s| && t == s[a..b] && o + n <= |t|
    ensures t[o..o + n] == s[a + o..a + o + n]
  {
    var x, y := t[o..o + n], s[a + o..a + o + n];
    assert forall j :: 0 <= j < n ==> x[j] == y[j];
  }

  /** The first `n` characters of `s.strip()` are the piece of `s` that
      starts where the leading white space ends. */
  lemma StrippedPrefixIsPiece(s: string, n: nat)
    ensures StripOffset(s) + |Prefix(Strip(s), n)| <= |s|
    ensures Prefix(Strip(s), n) == s[StripOffset(s)..StripOffset(s) + |Prefix(Strip(s), n)|]
  {
    var o := StripOffset(s);
    var st := Strip(s);
    var w := Prefix(st, n);
    StripIsPiece(s);
    assert w == st[..|w|];
    PieceOfPiece(s, o, o + |st|, st, 0, |w|);
  }

  /** The same, for `s` itself a piece `text[a..b]` of a longer text. */
  lemma StrippedPrefixInPiece(text: string, a: nat, b: nat, s: string, n: nat)
    requires a <= b <= |text| && s == text[a..b]
    ensures a + StripOffset(s) + |Prefix(Strip(s), n)| <= b
    ensures Prefix(Strip(s), n) == text[a + StripOffset(s)..a + StripOffset(s) + |Prefix(Strip(s), n)|]
  {
    StrippedPrefixIsPiece(s, n);
    PieceOfPiece(text, a, b, s, StripOffset(s), |Prefix(Strip(s), n)|);
  }

  /** `p` occurs in `s` starting at position `i`. */
  predicate MatchAt(s: string, p: string, i: nat) {
    i + |p| <= |s| && s[i..i + |p|] == p
  }

  /** The lowest position at or after `i` where `p` occurs in `s`. */
  function FindFrom(s: string, p: string, i: nat): (r: Option<nat>)
    decreases |s| - i
    ensures r.Some? ==> i <= r.value && MatchAt(s, p, r.value)
    ensures r.Some? ==> forall j :: i <= j < r.value ==> !MatchAt(s, p, j)
    ensures r.None? ==> forall j :: i <= j ==> !MatchAt(s, p, j)
  {
    if i + |p| > |s| then None
    else if s[i..i + |p|] == p then Some(i)
    else FindFrom(s, p, i + 1)
  }

  /** `s.find(p)`, with `None` in place of Python's -1. */
  function Find(s: string, p: string): Option<nat> {
    FindFrom(s, p, 0)
  }

  /** `p in s`. */
  predicate Contains(s: string, p: string) {
    Find(s, p).Some?
  }

  /** `p in s` holds exactly when `p` occurs at some position of `s`. */
  lemma ContainsIff(s: string, p: string, i: nat)
    ensures MatchAt(s, p, i) ==> Contains(s, p)
    ensures Contains(s, p) ==> MatchAt(s, p, Find(s, p).value)
  {
  }

  /** An occurrence inside a piece `w == s[a..b]` is an occurrence in `s`,
      at the shifted position and within the piece's bounds. */
  lemma {:induction false} MatchInPiece(s: string, a: nat, b: nat, w: string, p: string)
    requires a <= b <= |s| && w == s[a..b]
    requires Contains(w, p)
    ensures a + Find(w, p).value + |p| <= b
    ensures MatchAt(s, p, a + Find(w, p).value)
    ensures Contains(s, p)
  {
    var k := Find(w, p).value;
    assert MatchAt(w, p, k);
    forall j | 0 <= j < |p|
      ensures s[a + k + j] == p[j]
    {
      assert w[k..k + |p|][j] == p[j];
    }
    assert s[a + k..a + k + |p|] == p;
    ContainsIff(s, p, a + k);
  }

  /** Whatever contains `x + p + y` contains `p`; the longer marker patterns
      therefore occur only where the shorter ones inside them do. */
  lemma {:induction false} ContainsPart(s: string, x: string, p: string, y: string)
    requires Contains(s, x + p + y)
    ensures Contains(s, p)
  {
    var k := Find(s, x + p + y).value;
    assert MatchAt(s, x + p + y, k);
    forall j | 0 <= j < |p|
      ensures s[k + |x| + j] == p[j]
    {
      assert s[k..k + |x + p + y|][|x| + j] == (x + p + y)[|x| + j];
    }
    assert s[k + |x|..k + |x| + |p|] == p;
    ContainsIff(s, p, k + |x|);
  }

  /** Text that does not hold the first character of `p` cannot contain `p`. */
  lemma MissingFirstChar(s: string, p: string)
    requires |p| > 0 && p[0] !in s
    ensures !Contains(s, p)
  {
  }
}
