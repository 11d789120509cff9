/**
  `extractMathExpression` of the math solver (math-solver.ts): the maximal runs
  of `/[\d\s+\-*\/()]+/g` in a question, the longest trimmed run that holds a
  "number operator number" pattern (the first one on ties), with its whitespace
  collapsed.
*/
module MathExtract {
  import opened Optional
  import opened JsString

  predicate IsOperator(c: char) { c == '+' || c == '-' || c == '*' || c == '/' }

  /** The class `[\d\s+\-*\/()]`. */
  predicate IsMathChar(c: char) {
    IsAsciiDigit(c) || IsWhitespace(c) || IsOperator(c) || c == '(' || c == ')'
  }

  predicate AllMath(s: string) {
    forall i :: 0 <= i < |s| ==> IsMathChar(s[i])
  }

  // ---------------------------------------------------------------------------
  // The runs `text.match(/[\d\s+\-*\/()]+/g)` returns

  /** The number of leading math characters of `s`. */
  function MathPrefix(s: string): (k: nat)
    ensures k <= |s| && AllMath(s[..k])
    ensures k < |s| ==> !IsMathChar(s[k])
  {
    if |s| == 0 || !IsMathChar(s[0]) then 0
    else
      var k := 1 + MathPrefix(s[1..]);
      assert s[..k] == [s[0]] + s[1..][..k - 1];
      k
  }

  /** `r` is the maximal run of math characters of `text` starting at `a`: a
      slice that cannot be extended on either side. */
  predicate RunAt(text: string, r: string, a: int) {
    && 0 <= a <= |text| - |r|
    && text[a..a + |r|] == r
    && (a == 0 || !IsMathChar(text[a - 1]))
    && (a + |r| == |text| || !IsMathChar(text[a + |r|]))
  }

  ghost predicate IsRunOf(text: string, r: string) {
    exists a :: RunAt(text, r, a)
  }

  /** The math characters of `text`, in order. */
  function KeepMath(text: string): string {
    if |text| == 0 then ""
    else if IsMathChar(text[0]) then [text[0]] + KeepMath(text[1..])
    else KeepMath(text[1..])
  }

  function Concat(runs: seq<string>): string {
    if |runs| == 0 then "" else runs[0] + Concat(runs[1..])
  }

  /** `text.match(/[\d\s+\-*\/()]+/g)`, with no match as the empty list: the
      maximal runs of math characters, left to right. */
  function MathRuns(text: string): (runs: seq<string>)
    ensures forall i :: 0 <= i < |runs| ==> |runs[i]| > 0 && AllMath(runs[i])
    ensures Concat(runs) == KeepMath(text)
    decreases |text|
  {
    if |text| == 0 then []
    else if !IsMathChar(text[0]) then MathRuns(text[1..])
    else
      var k := MathPrefix(text);
      KeepMathSplit(text, k);
      [text[..k]] + MathRuns(text[k..])
  }

  /** Every element of `MathRuns` is a maximal run of the text. */
  lemma {:induction false} MathRunsAreRuns(text: string)
    ensures forall i :: 0 <= i < |MathRuns(text)| ==> IsRunOf(text, MathRuns(text)[i])
    decreases |text|
  {
    if |text| == 0 {
    } else if !IsMathChar(text[0]) {
      MathRunsAreRuns(text[1..]);
      var rest := MathRuns(text[1..]);
      forall i | 0 <= i < |rest|
        ensures IsRunOf(text, rest[i])
      {
        var a :| RunAt(text[1..], rest[i], a);
        RunShift(text, 1, rest[i], a);
      }
    } else {
      var k := MathPrefix(text);
      MathRunsAreRuns(text[k..]);
      var rest := MathRuns(text[k..]);
      assert text[..k] == text[0..0 + k];
      assert RunAt(text, text[..k], 0);
      forall i | 0 <= i < |rest|
        ensures IsRunOf(text, rest[i])
      {
        var r := rest[i];
        var a :| RunAt(text[k..], r, a);
        assert text[k..][a] == r[0];
        RunShift(text, k, r, a);
      }
      assert MathRuns(text) == [text[..k]] + rest;
    }
  }

  /** A run of a suffix is a run of the whole text, unless it could be
      extended to the left across the cut. */
  lemma RunShift(text: string, k: nat, r: string, a: int)
    requires k <= |text| && RunAt(text[k..], r, a)
    requires a == 0 ==> k == 0 || !IsMathChar(text[k - 1])
    ensures RunAt(text, r, a + k)
  {
    assert text[a + k..a + k + |r|] == text[k..][a..a + |r|];
  }

  /** Keeping the math characters of an all-math prefix keeps all of it. */
  lemma {:induction false} KeepMathSplit(text: string, k: nat)
    requires k <= |text| && AllMath(text[..k])
    ensures KeepMath(text) == text[..k] + KeepMath(text[k..])
  {
    if k > 0 {
      assert text[1..][..k - 1] == text[1..k];
      KeepMathSplit(text[1..], k - 1);
      assert text[1..][k - 1..] == text[k..];
      assert text[..k] == [text[0]] + text[1..k];
    }
  }

  // ---------------------------------------------------------------------------
  // The test `/\d+\s*[+\-*\/]\s*\d+/`

  /** `\s*\d` matches at the start of `u`. */
  predicate DigitAfterGap(u: string)
    decreases |u|
  {
    |u| > 0 && (IsAsciiDigit(u[0]) || (IsWhitespace(u[0]) && DigitAfterGap(u[1..])))
  }

  /** `\s*[+\-*\/]\s*\d` matches at the start of `u`. */
  predicate OpAfterGap(u: string)
    decreases |u|
  {
    && |u| > 0
    && ((IsOperator(u[0]) && DigitAfterGap(u[1..])) || (IsWhitespace(u[0]) && OpAfterGap(u[1..])))
  }

  /** `/\d+\s*[+\-*\/]\s*\d+/.test(t)`. A match exists exactly when one exists
      whose digit runs are single digits, so the runs are taken one digit long. */
  predicate Qualifies(t: string)
    decreases |t|
  {
    |t| > 0 && ((IsAsciiDigit(t[0]) && OpAfterGap(t[1..])) || Qualifies(t[1..]))
  }

  /** A whitespace character is neither a digit nor an operator. */
  lemma WhitespaceIsNoToken(c: char)
    requires IsWhitespace(c)
    ensures !IsAsciiDigit(c) && !IsOperator(c)
  {
  }

  /** Leading whitespace does not change whether `\s*\d` matches. */
  lemma {:induction false} DigitGapSkip(u: string)
    ensures DigitAfterGap(u) <==> DigitAfterGap(TrimStart(u))
    decreases |u|
  {
    if |u| > 0 && IsWhitespace(u[0]) {
      assert TrimStart(u) == TrimStart(u[1..]);
      WhitespaceIsNoToken(u[0]);
      DigitGapSkip(u[1..]);
    }
  }

  /** Leading whitespace does not change whether `\s*[+\-*\/]\s*\d` matches. */
  lemma {:induction false} OpGapSkip(u: string)
    ensures OpAfterGap(u) <==> OpAfterGap(TrimStart(u))
    decreases |u|
  {
    if |u| > 0 && IsWhitespace(u[0]) {
      assert TrimStart(u) == TrimStart(u[1..]);
      WhitespaceIsNoToken(u[0]);
      OpGapSkip(u[1..]);
    }
  }

  /** Leading whitespace does not change whether the pattern matches. */
  lemma {:induction false} QualifiesSkip(u: string)
    ensures Qualifies(u) <==> Qualifies(TrimStart(u))
    decreases |u|
  {
    if |u| > 0 && IsWhitespace(u[0]) {
      assert TrimStart(u) == TrimStart(u[1..]);
      WhitespaceIsNoToken(u[0]);
      QualifiesSkip(u[1..]);
    }
  }

  lemma {:induction false} CollapseKeepsDigitGap(u: string)
    requires DigitAfterGap(u)
    ensures DigitAfterGap(CollapseWhitespace(u))
    decreases |u|
  {
    if IsWhitespace(u[0]) {
      DigitGapSkip(u);
      CollapseKeepsDigitGap(TrimStart(u));
      assert (" " + CollapseWhitespace(TrimStart(u)))[1..] == CollapseWhitespace(TrimStart(u));
    }
  }

  lemma {:induction false} CollapseKeepsOpGap(u: string)
    requires OpAfterGap(u)
    ensures OpAfterGap(CollapseWhitespace(u))
    decreases |u|
  {
    if IsWhitespace(u[0]) {
      OpGapSkip(u);
      CollapseKeepsOpGap(TrimStart(u));
      assert (" " + CollapseWhitespace(TrimStart(u)))[1..] == CollapseWhitespace(TrimStart(u));
    } else {
      CollapseKeepsDigitGap(u[1..]);
      assert ([u[0]] + CollapseWhitespace(u[1..]))[1..] == CollapseWhitespace(u[1..]);
    }
  }

  /** Collapsing whitespace keeps a "number operator number" pattern. */
  lemma {:induction false} CollapseKeepsQualifies(t: string)
    requires Qualifies(t)
    ensures Qualifies(CollapseWhitespace(t))
    decreases |t|
  {
    if IsWhitespace(t[0]) {
      QualifiesSkip(t);
      CollapseKeepsQualifies(TrimStart(t));
      assert (" " + CollapseWhitespace(TrimStart(t)))[1..] == CollapseWhitespace(TrimStart(t));
    } else {
      var c := CollapseWhitespace(t);
      assert c == [t[0]] + CollapseWhitespace(t[1..]);
      assert c[1..] == CollapseWhitespace(t[1..]);
      if IsAsciiDigit(t[0]) && OpAfterGap(t[1..]) {
        CollapseKeepsOpGap(t[1..]);
      } else {
        CollapseKeepsQualifies(t[1..]);
      }
    }
  }

  /** Collapsing keeps whether the last character is whitespace. */
  lemma {:induction false} CollapseLast(s: string)
    requires |s| > 0
    ensures IsWhitespace(CollapseWhitespace(s)[|CollapseWhitespace(s)| - 1]) <==> IsWhitespace(s[|s| - 1])
    decreases |s|
  {
    var c := CollapseWhitespace(s);
    if IsWhitespace(s[0]) {
      var t := TrimStart(s);
      if |t| > 0 {
        CollapseLast(t);
        assert t[|t| - 1] == s[|s| - 1];
        assert c[|c| - 1] == CollapseWhitespace(t)[|CollapseWhitespace(t)| - 1];
      } else {
        assert IsWhitespace(s[|s| - 1]);
      }
    } else if |s| > 1 {
      CollapseLast(s[1..]);
      assert c[|c| - 1] == CollapseWhitespace(s[1..])[|CollapseWhitespace(s[1..])| - 1];
    }
  }

  // ---------------------------------------------------------------------------
  // The longest qualifying run

  /** Each run with its whitespace trimmed. */
  function TrimAll(runs: seq<string>): (cs: seq<string>)
    ensures |cs| == |runs| && forall i :: 0 <= i < |runs| ==> cs[i] == Trim(runs[i])
  {
    seq(|runs|, i requires 0 <= i < |runs| => Trim(runs[i]))
  }

  /** `cands[i]` qualifies, no qualifying candidate is longer, and every
      qualifying candidate before it is strictly shorter. */
  predicate IsLongestAt(cands: seq<string>, i: int) {
    && 0 <= i < |cands|
    && Qualifies(cands[i])
    && (forall j :: 0 <= j < |cands| && Qualifies(cands[j]) ==> |cands[j]| <= |cands[i]|)
    && (forall j :: 0 <= j < i && Qualifies(cands[j]) ==> |cands[j]| < |cands[i]|)
  }

  /** The loop over the matches: `longestMatch` starts empty and is replaced by
      a candidate only when the candidate qualifies and is strictly longer. */
  function Longest(cands: seq<string>): (r: string)
    ensures r == "" <==> forall j :: 0 <= j < |cands| ==> !Qualifies(cands[j])
    ensures r != "" ==> exists i :: IsLongestAt(cands, i) && r == cands[i]
    decreases |cands|
  {
    if |cands| == 0 then ""
    else
      var n := |cands| - 1;
      var prefix := cands[..n];
      var b := Longest(prefix);
      var c := cands[n];
      if |c| > |b| && Qualifies(c) then
        LongerReplaces(cands, b);
        c
      else
        ShorterKeeps(cands, b);
        b
  }

  /** A qualifying last candidate longer than the best before it is the
      longest. */
  lemma LongerReplaces(cands: seq<string>, b: string)
    requires |cands| > 0
    requires var prefix := cands[..|cands| - 1];
      && (b == "" <==> forall j :: 0 <= j < |prefix| ==> !Qualifies(prefix[j]))
      && (b != "" ==> exists i :: IsLongestAt(prefix, i) && b == prefix[i])
    requires |cands[|cands| - 1]| > |b| && Qualifies(cands[|cands| - 1])
    ensures IsLongestAt(cands, |cands| - 1)
  {
    var prefix := cands[..|cands| - 1];
    if b != "" {
      var i :| IsLongestAt(prefix, i) && b == prefix[i];
    }
  }

  /** Otherwise the best before it stays the best. */
  lemma ShorterKeeps(cands: seq<string>, b: string)
    requires |cands| > 0
    requires var prefix := cands[..|cands| - 1];
      && (b == "" <==> forall j :: 0 <= j < |prefix| ==> !Qualifies(prefix[j]))
      && (b != "" ==> exists i :: IsLongestAt(prefix, i) && b == prefix[i])
    requires !(|cands[|cands| - 1]| > |b| && Qualifies(cands[|cands| - 1]))
    ensures b == "" <==> forall j :: 0 <= j < |cands| ==> !Qualifies(cands[j])
    ensures b != "" ==> exists i :: IsLongestAt(cands, i) && b == cands[i]
  {
    var n := |cands| - 1;
    var prefix := cands[..n];
    assert forall j :: 0 <= j < n ==> prefix[j] == cands[j];
    if b != "" {
      var i :| IsLongestAt(prefix, i) && b == prefix[i];
      assert IsLongestAt(cands, i);
    } else {
      assert !Qualifies(cands[n]);
    }
  }

  /** The shape of every expression `extractMathExpression` returns. */
  predicate IsExpressionText(e: string) {
    && |e| > 0
    && (forall i :: 0 <= i < |e| ==> IsMathChar(e[i]) && (IsWhitespace(e[i]) ==> e[i] == ' '))
    && e[0] != ' ' && e[|e| - 1] != ' '
    && (forall i :: 0 <= i < |e| - 1 ==> !(e[i] == ' ' && e[i + 1] == ' '))
    && Qualifies(e)
  }

  /** `extractMathExpression`. */
  function ExtractMathExpression(text: string): (r: Option<string>)
    ensures var cands := TrimAll(MathRuns(text));
      r.None? <==> forall i :: 0 <= i < |cands| ==> !Qualifies(cands[i])
    ensures var cands := TrimAll(MathRuns(text));
      r.Some? ==> exists i :: IsLongestAt(cands, i) && r.value == CollapseWhitespace(Trim(cands[i]))
  {
    var best := Longest(TrimAll(MathRuns(text)));
    if best == "" then None else Some(CollapseWhitespace(Trim(best)))
  }

  /** A run trimmed and collapsed is a well-formed expression text when it
      qualifies. */
  lemma CleanedRunIsExpression(run: string)
    requires AllMath(run) && Qualifies(Trim(run))
    ensures IsExpressionText(CollapseWhitespace(Trim(run)))
  {
    var t := Trim(run);
    TrimKeepsMath(run);
    CollapseKeepsQualifies(t);
    CollapseLast(t);
    CollapseKeepsMath(t);
  }

  lemma TrimKeepsMath(run: string)
    requires AllMath(run)
    ensures AllMath(Trim(run))
  {
    var t := Trim(run);
    var k := LeadingWhitespace(run);
    forall i | 0 <= i < |t|
      ensures IsMathChar(t[i])
    {
      assert t[i] == run[k + i];
    }
  }

  /** Collapsing math text leaves math text whose only whitespace is `' '`. */
  lemma CollapseKeepsMath(t: string)
    requires AllMath(t)
    ensures var e := CollapseWhitespace(t);
      forall i :: 0 <= i < |e| ==> IsMathChar(e[i]) && (IsWhitespace(e[i]) ==> e[i] == ' ')
  {
    var e := CollapseWhitespace(t);
    forall i | 0 <= i < |e|
      ensures IsMathChar(e[i]) && (IsWhitespace(e[i]) ==> e[i] == ' ')
    {
      if e[i] != ' ' {
        var j :| 0 <= j < |t| && t[j] == e[i];
      }
    }
  }

  /** Every expression `extractMathExpression` returns holds only digits,
      operators, parentheses and single inner spaces, is trimmed, and still
      holds a "number operator number" pattern. */
  lemma ExtractedIsExpression(text: string)
    requires ExtractMathExpression(text).Some?
    ensures IsExpressionText(ExtractMathExpression(text).value)
  {
    var runs := MathRuns(text);
    var cands := TrimAll(runs);
    var i :| IsLongestAt(cands, i) && ExtractMathExpression(text).value == CollapseWhitespace(Trim(cands[i]));
    TrimTwice(runs[i]);
    CleanedRunIsExpression(runs[i]);
  }
}
