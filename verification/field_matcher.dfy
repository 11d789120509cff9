/**
  The field matching engine (field-matcher.ts): a form field's label (or, when
  the label is empty, its placeholder) is normalized and classified into one
  user field id by a three-tier search in strict priority: exact keyword
  equality, then substring containment, then a fuzzy search. Whichever tier
  produces the candidate, the candidate's exclusion list can veto it, and a
  vetoed candidate is never replaced by one from a later tier.
*/
module FieldMatcher {
  import opened Optional
  import opened JsString
  import opened TextNormalizer
  import opened AutofillTypes
  import opened Constants

  /** The matcher's tables: the keyword dictionary (`FIELD_KEYWORDS`) and the
      per-field exclusion lists (`EXCLUSION_KEYWORDS`), both in iteration order. */
  datatype Dictionary = Dictionary(keywords: KeywordTable, exclusions: KeywordTable)

  /** The tables with every keyword normalized once: the source normalizes each
      keyword where it compares it, which gives the same values. */
  datatype Index = Index(entries: seq<Entry>, exclusions: KeywordTable)

  /** One (field id, keyword) pair of a keyword table, with the keyword's
      normalized form, which every tier compares against. */
  datatype Entry = Entry(fieldId: string, keyword: string, normalized: string)

  /** The entry for `keyword` listed under `fieldId`. */
  function MakeEntry(fieldId: string, keyword: string): Entry {
    Entry(fieldId, keyword, NormalizeText(keyword))
  }

  /** The pairs of one field's keywords, in list order. */
  function FieldEntries(id: string, keywords: seq<string>): (es: seq<Entry>) {
    seq(|keywords|, j requires 0 <= j < |keywords| => MakeEntry(id, keywords[j]))
  }

  /** The pairs of a table in iteration order: fields in table order, each
      field's keywords in list order. */
  function Entries(table: KeywordTable): (es: seq<Entry>) {
    if |table| == 0 then [] else FieldEntries(table[0].0, table[0].1) + Entries(table[1..])
  }

  /** `e` is the pair of keyword `j` of field `i`. */
  predicate Listed(table: KeywordTable, i: int, j: int, e: Entry) {
    0 <= i < |table| && 0 <= j < |table[i].1| && e == MakeEntry(table[i].0, table[i].1[j])
  }

  /** Every keyword of the table appears among its entries, under its own field id. */
  lemma {:induction false} EntriesComplete(table: KeywordTable, i: int, j: int)
    requires 0 <= i < |table| && 0 <= j < |table[i].1|
    ensures MakeEntry(table[i].0, table[i].1[j]) in Entries(table)
  {
    var head := FieldEntries(table[0].0, table[0].1);
    assert Entries(table) == head + Entries(table[1..]);
    if i == 0 {
      assert head[j] == MakeEntry(table[i].0, table[i].1[j]);
    } else {
      assert table[1..][i - 1] == table[i];
      EntriesComplete(table[1..], i - 1, j);
    }
  }

  /** Every entry comes from a keyword listed under its field id. */
  lemma {:induction false} EntriesSound(table: KeywordTable, e: Entry)
    requires e in Entries(table)
    ensures exists i, j :: Listed(table, i, j, e)
  {
    var head := FieldEntries(table[0].0, table[0].1);
    assert Entries(table) == head + Entries(table[1..]);
    if e in head {
      var j :| 0 <= j < |head| && head[j] == e;
      assert Listed(table, 0, j, e);
    } else {
      EntriesSound(table[1..], e);
      var i, j :| Listed(table[1..], i, j, e);
      assert table[1..][i] == table[i + 1];
      assert Listed(table, i + 1, j, e);
    }
  }

  /** `determineMatchType`: the tier a fuzzy score falls in. */
  function DetermineMatchType(score: real): (t: MatchType)
    ensures t == Exact <==> score <= EXACT_THRESHOLD
    ensures t == Partial <==> EXACT_THRESHOLD < score <= PARTIAL_THRESHOLD
    ensures t == Fuzzy <==> PARTIAL_THRESHOLD < score
  {
    if score <= EXACT_THRESHOLD then Exact
    else if score <= PARTIAL_THRESHOLD then Partial
    else Fuzzy
  }

  // ---------------------------------------------------------------------------
  // Exact tier

  /** The entry's keyword, normalized, is exactly `text`. */
  predicate KeywordIs(e: Entry, text: string) {
    e.normalized == text
  }

  /** `es[i]` is the first entry whose normalized keyword equals `text`. */
  predicate IsFirstExactAt(text: string, es: seq<Entry>, i: int) {
    && 0 <= i < |es|
    && KeywordIs(es[i], text)
    && forall j :: 0 <= j < i ==> !KeywordIs(es[j], text)
  }

  /** The exact-tier result for an entry: score 0, the raw keyword reported. */
  function ExactResult(e: Entry): FieldMatchResult {
    FieldMatchResult(e.fieldId, 0.0, Exact, e.keyword)
  }

  /** `findExactMatch`. */
  function FindExactMatch(text: string, es: seq<Entry>): (r: Option<FieldMatchResult>)
    ensures r.None? <==> forall i :: 0 <= i < |es| ==> !KeywordIs(es[i], text)
    ensures r.Some? ==> r.value.score == 0.0 && r.value.matchType == Exact
  {
    if |es| == 0 then None
    else if KeywordIs(es[0], text) then Some(ExactResult(es[0]))
    else
      assert forall j :: 1 <= j < |es| ==> es[j] == es[1..][j - 1];
      FindExactMatch(text, es[1..])
  }

  /** A found exact match is the first entry whose normalized keyword equals
      the text, reported with score 0 and its raw keyword. */
  lemma {:induction false} FindExactMatchIsFirst(text: string, es: seq<Entry>)
    requires FindExactMatch(text, es).Some?
    ensures exists i :: IsFirstExactAt(text, es, i) && FindExactMatch(text, es).value == ExactResult(es[i])
  {
    if KeywordIs(es[0], text) {
      assert IsFirstExactAt(text, es, 0);
    } else {
      FindExactMatchIsFirst(text, es[1..]);
      var i :| IsFirstExactAt(text, es[1..], i) && FindExactMatch(text, es[1..]).value == ExactResult(es[1..][i]);
      assert forall j :: 1 <= j <= i ==> es[j] == es[1..][j - 1];
      assert IsFirstExactAt(text, es, i + 1);
    }
  }

  // ---------------------------------------------------------------------------
  // Partial tier

  /** `Math.max` on the (never NaN) scores used here. */
  function Max(a: real, b: real): real {
    if a >= b then a else b
  }

  /** Score when the text contains the keyword: the larger the share of the
      text the keyword covers, the lower the score. */
  function ContainsScore(text: string, keyword: string): real
    requires |text| > 0
  {
    Max(0.01, (1.0 - (|keyword| as real) / (|text| as real)) * 0.2)
  }

  /** Score when the keyword contains the text. */
  function ContainedScore(text: string, keyword: string): real
    requires |keyword| > 0
  {
    Max(0.05, (1.0 - (|text| as real) / (|keyword| as real)) * 0.3)
  }

  /** The candidates one entry offers the partial tier, in the order the two
      containment tests run. For an empty text the first score would be NaN,
      which the strict comparison never accepts, so it offers nothing. */
  function PartialCandidatesOf(text: string, e: Entry): seq<FieldMatchResult> {
    var nk := e.normalized;
    (if |text| > 0 && Includes(text, nk)
     then [FieldMatchResult(e.fieldId, ContainsScore(text, nk), Partial, e.keyword)] else [])
    + (if Includes(nk, text) && |text| >= 3
       then [FieldMatchResult(e.fieldId, ContainedScore(text, nk), Partial, e.keyword)] else [])
  }

  /** All partial-tier candidates, entry by entry. */
  function PartialCandidates(text: string, es: seq<Entry>): seq<FieldMatchResult> {
    if |es| == 0 then [] else PartialCandidatesOf(text, es[0]) + PartialCandidates(text, es[1..])
  }

  /** `cands[k]` has the lowest score and every earlier candidate scores higher. */
  predicate IsFirstMinimumAt(cands: seq<FieldMatchResult>, k: int) {
    && 0 <= k < |cands|
    && (forall j :: 0 <= j < |cands| ==> cands[k].score <= cands[j].score)
    && (forall j :: 0 <= j < k ==> cands[k].score < cands[j].score)
  }

  /** Reference selection: the lowest-scoring candidate, the earliest among equals. */
  function FirstMinimum(cands: seq<FieldMatchResult>): (r: Option<FieldMatchResult>)
    ensures r.None? <==> |cands| == 0
    ensures r.Some? ==> exists k :: IsFirstMinimumAt(cands, k) && r.value == cands[k]
  {
    if |cands| == 0 then None
    else
      assert forall j :: 1 <= j < |cands| ==> cands[j] == cands[1..][j - 1];
      match FirstMinimum(cands[1..])
      case None => assert IsFirstMinimumAt(cands, 0); Some(cands[0])
      case Some(m) =>
        var k :| IsFirstMinimumAt(cands[1..], k) && m == cands[1..][k];
        if cands[0].score <= m.score then
          assert IsFirstMinimumAt(cands, 0);
          Some(cands[0])
        else
          assert IsFirstMinimumAt(cands, k + 1);
          Some(m)
  }

  /** The scan of `findPartialMatch`: a candidate replaces the best so far only
      when it scores strictly lower. */
  function PickBest(cands: seq<FieldMatchResult>, best: Option<FieldMatchResult>, bestScore: real): Option<FieldMatchResult> {
    if |cands| == 0 then best
    else if cands[0].score < bestScore then PickBest(cands[1..], Some(cands[0]), cands[0].score)
    else PickBest(cands[1..], best, bestScore)
  }

  /** The first minimum scores no higher than any candidate and is one of them. */
  lemma {:induction false} FirstMinimumFacts(cands: seq<FieldMatchResult>)
    requires |cands| > 0
    ensures FirstMinimum(cands).value in cands
    ensures forall j :: 0 <= j < |cands| ==> FirstMinimum(cands).value.score <= cands[j].score
  {
    var m := FirstMinimum(cands).value;
    var k :| IsFirstMinimumAt(cands, k) && m == cands[k];
    assert cands[k] in cands;
  }

  /** Unfolding `FirstMinimum` one step. */
  lemma {:induction false} FirstMinimumCons(cands: seq<FieldMatchResult>)
    requires |cands| > 1
    ensures FirstMinimum(cands) ==
      if cands[0].score <= FirstMinimum(cands[1..]).value.score then Some(cands[0]) else FirstMinimum(cands[1..])
  {
  }

  /** When no candidate beats the starting score the scan keeps its start. */
  lemma {:induction false} PickBestKeeps(cands: seq<FieldMatchResult>, best: Option<FieldMatchResult>, bestScore: real)
    requires forall j :: 0 <= j < |cands| ==> bestScore <= cands[j].score
    ensures PickBest(cands, best, bestScore) == best
  {
    if |cands| > 0 {
      PickBestKeeps(cands[1..], best, bestScore);
    }
  }

  /** The strict-improvement scan selects exactly the reference first minimum
      whenever some candidate beats the starting score. */
  lemma {:induction false} PickBestIsFirstMinimum(cands: seq<FieldMatchResult>, best: Option<FieldMatchResult>, bestScore: real)
    requires exists j :: 0 <= j < |cands| && cands[j].score < bestScore
    ensures PickBest(cands, best, bestScore) == FirstMinimum(cands)
  {
    var c, rest := cands[0], cands[1..];
    if |rest| == 0 {
      return;
    }
    FirstMinimumCons(cands);
    FirstMinimumFacts(rest);
    var m := FirstMinimum(rest).value;
    if c.score < bestScore {
      if m.score < c.score {
        PickBestIsFirstMinimum(rest, Some(c), c.score);
      } else {
        assert forall j :: 0 <= j < |rest| ==> c.score <= rest[j].score;
        PickBestKeeps(rest, Some(c), c.score);
      }
    } else {
      var j :| 0 <= j < |cands| && cands[j].score < bestScore;
      assert rest[j - 1] == cands[j];
      PickBestIsFirstMinimum(rest, best, bestScore);
    }
  }

  /** Started from no result and score 1, as `findPartialMatch` does, the scan
      selects the first minimum of candidates that all score below 1. */
  lemma PickBestFromStart(cands: seq<FieldMatchResult>)
    requires forall c :: c in cands ==> c.score < 1.0
    ensures PickBest(cands, None, 1.0) == FirstMinimum(cands)
  {
    if |cands| > 0 {
      assert cands[0] in cands;
      PickBestIsFirstMinimum(cands, None, 1.0);
    }
  }

  /** `0 <= a / b`, and `a / b < 1` when `a < b`, for natural `a` and positive `b`. */
  lemma RatioBounds(a: nat, b: nat)
    requires b > 0
    ensures 0.0 <= (a as real) / (b as real)
    ensures a < b ==> (a as real) / (b as real) < 1.0
  {
    var q := (a as real) / (b as real);
    assert q * (b as real) == a as real;
  }

  /** Every partial-tier candidate is tagged partial and scores in [0.01, 0.3). */
  lemma {:induction false} PartialCandidatesBounded(text: string, es: seq<Entry>)
    ensures forall c :: c in PartialCandidates(text, es) ==> c.matchType == Partial && 0.01 <= c.score < 0.3
  {
    if |es| > 0 {
      var nk := es[0].normalized;
      if |text| > 0 {
        RatioBounds(|nk|, |text|);
      }
      if |nk| > 0 {
        RatioBounds(|text|, |nk|);
      }
      PartialCandidatesBounded(text, es[1..]);
    }
  }

  /** `findPartialMatch`: the lowest-scoring containment candidate, the first
      among equals; none when no entry contains, or is contained in, the text. */
  function FindPartialMatch(text: string, es: seq<Entry>): (r: Option<FieldMatchResult>)
    ensures r == FirstMinimum(PartialCandidates(text, es))
    ensures r.Some? ==> r.value.matchType == Partial && 0.01 <= r.value.score < 0.3
  {
    PartialCandidatesBounded(text, es);
    PickBestFromStart(PartialCandidates(text, es));
    PickBest(PartialCandidates(text, es), None, 1.0)
  }

  // ---------------------------------------------------------------------------
  // Fuzzy tier

  /** The Fuse.js score of a search text against one indexed (normalized)
      keyword, or None when Fuse does not report that item. Fuse's
      bitap scoring is not part of this model. */
  type Scorer = (string, string) -> Option<real>

  /** Scores stay within [0, 1], as Fuse's do. */
  ghost predicate ScorerInRange(scorer: Scorer) {
    forall a, b :: scorer(a, b).Some? ==> 0.0 <= scorer(a, b).value <= 1.0
  }

  /** The fuzzy-tier result for an index item that scored `s`; the index holds
      normalized keywords, so that is the keyword reported. */
  function FuzzyResult(e: Entry, s: real): FieldMatchResult {
    FieldMatchResult(e.fieldId, s, DetermineMatchType(s), e.normalized)
  }

  /** The hits Fuse reports for the text, in index order. */
  function FuzzyCandidates(text: string, es: seq<Entry>, scorer: Scorer): seq<FieldMatchResult> {
    if |es| == 0 then []
    else
      (match scorer(text, es[0].normalized)
       case None => []
       case Some(s) => [FuzzyResult(es[0], s)])
      + FuzzyCandidates(text, es[1..], scorer)
  }

  /** Every hit comes from an index item scored with the hit's own score. */
  lemma {:induction false} FuzzyCandidatesSound(text: string, es: seq<Entry>, scorer: Scorer, c: FieldMatchResult)
    requires c in FuzzyCandidates(text, es, scorer)
    ensures exists i :: 0 <= i < |es| && scorer(text, es[i].normalized) == Some(c.score) && c == FuzzyResult(es[i], c.score)
  {
    if scorer(text, es[0].normalized).Some? && c == FuzzyResult(es[0], scorer(text, es[0].normalized).value) {
    } else {
      FuzzyCandidatesSound(text, es[1..], scorer, c);
      var i :| 0 <= i < |es[1..]| && scorer(text, es[1..][i].normalized) == Some(c.score) && c == FuzzyResult(es[1..][i], c.score);
      assert es[1..][i] == es[i + 1];
    }
  }

  /** Every index item Fuse scores is among the hits. */
  lemma {:induction false} FuzzyCandidatesComplete(text: string, es: seq<Entry>, scorer: Scorer, i: int)
    requires 0 <= i < |es| && scorer(text, es[i].normalized).Some?
    ensures FuzzyResult(es[i], scorer(text, es[i].normalized).value) in FuzzyCandidates(text, es, scorer)
  {
    if i > 0 {
      assert es[1..][i - 1] == es[i];
      FuzzyCandidatesComplete(text, es[1..], scorer, i - 1);
    }
  }

  /** `findFuzzyMatch`: the top hit (lowest score, earliest among equals, as
      Fuse sorts its results), provided it scores within `MAX`. */
  function FindFuzzyMatch(text: string, es: seq<Entry>, scorer: Scorer): (r: Option<FieldMatchResult>)
    ensures r.Some? ==> r.value.score <= MAX_THRESHOLD && r.value.matchType == DetermineMatchType(r.value.score)
    ensures r.Some? ==> exists i :: 0 <= i < |es| && scorer(text, es[i].normalized) == Some(r.value.score) && r.value == FuzzyResult(es[i], r.value.score)
    ensures r.Some? ==> forall i :: 0 <= i < |es| && scorer(text, es[i].normalized).Some? ==> r.value.score <= scorer(text, es[i].normalized).value
    ensures r.None? <==> forall i :: 0 <= i < |es| && scorer(text, es[i].normalized).Some? ==> scorer(text, es[i].normalized).value > MAX_THRESHOLD
  {
    FindFuzzyFacts(text, es, scorer);
    match FirstMinimum(FuzzyCandidates(text, es, scorer))
    case None => None
    case Some(top) => if top.score > MAX_THRESHOLD then None else Some(top)
  }

  /** What the top hit says about the index and the scorer. */
  lemma FindFuzzyFacts(text: string, es: seq<Entry>, scorer: Scorer)
    ensures var top := FirstMinimum(FuzzyCandidates(text, es, scorer));
      && (top.None? ==> forall i :: 0 <= i < |es| ==> scorer(text, es[i].normalized).None?)
      && (top.Some? ==>
            && top.value.matchType == DetermineMatchType(top.value.score)
            && (exists i :: 0 <= i < |es| && scorer(text, es[i].normalized) == Some(top.value.score) && top.value == FuzzyResult(es[i], top.value.score))
            && forall i :: 0 <= i < |es| && scorer(text, es[i].normalized).Some? ==> top.value.score <= scorer(text, es[i].normalized).value)
  {
    var cands := FuzzyCandidates(text, es, scorer);
    forall i | 0 <= i < |es| && scorer(text, es[i].normalized).Some?
      ensures |cands| > 0
      ensures FirstMinimum(cands).value.score <= scorer(text, es[i].normalized).value
    {
      FuzzyCandidatesComplete(text, es, scorer, i);
      var c := FuzzyResult(es[i], scorer(text, es[i].normalized).value);
      FirstMinimumFacts(cands);
      var j :| 0 <= j < |cands| && cands[j] == c;
    }
    if |cands| > 0 {
      FirstMinimumFacts(cands);
      FuzzyCandidatesSound(text, es, scorer, FirstMinimum(cands).value);
    }
  }

  // ---------------------------------------------------------------------------
  // Exclusion veto, search text and the tiers together

  /** `table[i]` is the first row registered under `fieldId`. */
  predicate IsFirstRowAt(table: KeywordTable, fieldId: string, i: int) {
    && 0 <= i < |table|
    && table[i].0 == fieldId
    && forall j :: 0 <= j < i ==> table[j].0 != fieldId
  }

  /** `EXCLUSION_KEYWORDS[fieldId]`: the list registered under the id, if any. */
  function ExclusionsOf(fieldId: string, exclusions: KeywordTable): (r: Option<seq<string>>)
    ensures r.None? <==> forall i :: 0 <= i < |exclusions| ==> exclusions[i].0 != fieldId
    ensures r.Some? ==> exists i :: IsFirstRowAt(exclusions, fieldId, i) && r.value == exclusions[i].1
  {
    if |exclusions| == 0 then None
    else if exclusions[0].0 == fieldId then
      assert IsFirstRowAt(exclusions, fieldId, 0);
      Some(exclusions[0].1)
    else
      var r := ExclusionsOf(fieldId, exclusions[1..]);
      assert forall i :: 1 <= i < |exclusions| ==> exclusions[i] == exclusions[1..][i - 1];
      if r.Some? then
        var i :| IsFirstRowAt(exclusions[1..], fieldId, i) && r.value == exclusions[1..][i].1;
        assert IsFirstRowAt(exclusions, fieldId, i + 1);
        r
      else
        r
  }

  /** There is one first row per id. */
  lemma FirstRowUnique(table: KeywordTable, fieldId: string, i: int, j: int)
    requires IsFirstRowAt(table, fieldId, i) && IsFirstRowAt(table, fieldId, j)
    ensures i == j
  {
  }

  /** Some word of the list occurs in the search text. */
  function AnyOccurs(searchText: string, words: seq<string>): (r: bool)
    ensures r <==> exists k :: 0 <= k < |words| && Includes(searchText, words[k])
  {
    if |words| == 0 then false
    else if Includes(searchText, words[0]) then true
    else
      var r := AnyOccurs(searchText, words[1..]);
      assert forall k :: 1 <= k < |words| ==> words[k] == words[1..][k - 1];
      r
  }

  /** `shouldExcludeField` over normalized exclusion lists: the field has an
      exclusion list one of whose words occurs in the search text. */
  function ShouldExcludeField(fieldId: string, searchText: string, exclusions: KeywordTable): (r: bool)
    ensures (forall i :: 0 <= i < |exclusions| ==> exclusions[i].0 != fieldId) ==> !r
    ensures r <==> exists i, k :: IsFirstRowAt(exclusions, fieldId, i) && 0 <= k < |exclusions[i].1| && Includes(searchText, exclusions[i].1[k])
  {
    match ExclusionsOf(fieldId, exclusions)
    case None => false
    case Some(words) =>
      var i :| IsFirstRowAt(exclusions, fieldId, i) && words == exclusions[i].1;
      assert forall i' :: IsFirstRowAt(exclusions, fieldId, i') ==> i' == i by {
        forall i' | IsFirstRowAt(exclusions, fieldId, i') { FirstRowUnique(exclusions, fieldId, i, i'); }
      }
      AnyOccurs(searchText, words)
  }

  /** Every word of a list, normalized. */
  function NormalizeAll(words: seq<string>): (r: seq<string>)
    ensures |r| == |words|
  {
    seq(|words|, k requires 0 <= k < |words| => NormalizeText(words[k]))
  }

  /** The index the matcher searches: the dictionary's entries and its
      exclusion lists with every word normalized. */
  function Prepare(dict: Dictionary): (idx: Index)
    ensures |idx.exclusions| == |dict.exclusions|
    ensures forall i :: 0 <= i < |dict.exclusions| ==> idx.exclusions[i] == (dict.exclusions[i].0, NormalizeAll(dict.exclusions[i].1))
  {
    Index(Entries(dict.keywords),
          seq(|dict.exclusions|, i requires 0 <= i < |dict.exclusions| => (dict.exclusions[i].0, NormalizeAll(dict.exclusions[i].1))))
  }

  /** `extractSearchText`: the normalized label, or the normalized placeholder
      when the label is the empty string. */
  function ExtractSearchText(field: ParsedFormField): (r: string)
    ensures IsNormalized(r)
    ensures field.labelText != "" ==> r == NormalizeText(field.labelText)
    ensures field.labelText == "" ==> r == NormalizeText(field.placeholder)
  {
    var raw := if field.labelText != "" then field.labelText else field.placeholder;
    NormalizeTextIsNormalized(raw);
    NormalizeText(raw)
  }

  /** The veto applied to whichever tier produced the candidate. */
  function Veto(candidate: FieldMatchResult, searchText: string, exclusions: KeywordTable): Option<FieldMatchResult> {
    if ShouldExcludeField(candidate.userFieldId, searchText, exclusions) then None else Some(candidate)
  }

  /** The tiers of `matchFormField` on an extracted search text: exact, then
      partial, then fuzzy; the first tier with a candidate decides, and a
      vetoed candidate yields no result. */
  function MatchSearchText(st: string, idx: Index, scorer: Scorer): (r: Option<FieldMatchResult>)
    ensures |st| < 2 ==> r.None?
    ensures r.Some? ==> !ShouldExcludeField(r.value.userFieldId, st, idx.exclusions)
  {
    var es := idx.entries;
    if |st| < 2 then None
    else
      var exact := FindExactMatch(st, es);
      if exact.Some? then Veto(exact.value, st, idx.exclusions)
      else
        var partial := FindPartialMatch(st, es);
        if partial.Some? then Veto(partial.value, st, idx.exclusions)
        else
          var fuzzy := FindFuzzyMatch(st, es, scorer);
          if fuzzy.Some? then Veto(fuzzy.value, st, idx.exclusions) else None
  }

  /** `matchFormField`: no result for a search text under two characters, a
      result is never of a vetoed field, and with Fuse's scores in [0, 1] its
      score and tag agree with the thresholds. */
  function MatchFormField(field: ParsedFormField, idx: Index, scorer: Scorer): (r: Option<FieldMatchResult>)
    ensures |ExtractSearchText(field)| < 2 ==> r.None?
    ensures r.Some? ==> !ShouldExcludeField(r.value.userFieldId, ExtractSearchText(field), idx.exclusions)
    ensures ScorerInRange(scorer) ==> InBand(r)
  {
    var st := ExtractSearchText(field);
    assert ScorerInRange(scorer) ==> InBand(MatchSearchText(st, idx, scorer)) by {
      if ScorerInRange(scorer) {
        MatchResultInvariant(st, idx, scorer);
      }
    }
    MatchSearchText(st, idx, scorer)
  }

  /** Tier 1 decides whenever some keyword normalizes to the search text: the
      result is the first such entry, exact with score 0 and its raw keyword,
      unless that entry's field is excluded, in which case there is no result. */
  lemma ExactTierDecides(st: string, idx: Index, scorer: Scorer, i: int)
    requires |st| >= 2
    requires IsFirstExactAt(st, idx.entries, i)
    ensures var r := MatchSearchText(st, idx, scorer);
      && (r.None? <==> ShouldExcludeField(idx.entries[i].fieldId, st, idx.exclusions))
      && (r.Some? ==> r.value == FieldMatchResult(idx.entries[i].fieldId, 0.0, Exact, idx.entries[i].keyword))
  {
    FindExactMatchIsFirst(st, idx.entries);
    var i' :| IsFirstExactAt(st, idx.entries, i') && FindExactMatch(st, idx.entries).value == ExactResult(idx.entries[i']);
    assert i' == i;
  }

  /** Tier 2 runs only when no keyword normalizes to the search text; its
      candidate (the lowest containment score, earliest among equals) decides,
      vetoed without falling through to the fuzzy tier. */
  lemma PartialTierDecides(st: string, idx: Index, scorer: Scorer)
    requires |st| >= 2
    requires forall i :: 0 <= i < |idx.entries| ==> idx.entries[i].normalized != st
    requires |PartialCandidates(st, idx.entries)| > 0
    ensures var r := MatchSearchText(st, idx, scorer);
      var top := FirstMinimum(PartialCandidates(st, idx.entries)).value;
      && (r.None? <==> ShouldExcludeField(top.userFieldId, st, idx.exclusions))
      && (r.Some? ==> r.value == top && r.value.matchType == Partial && 0.01 <= r.value.score < 0.3)
  {
  }

  /** Tier 3 runs only when the first two found nothing. */
  lemma FuzzyTierDecides(st: string, idx: Index, scorer: Scorer)
    requires |st| >= 2
    requires forall i :: 0 <= i < |idx.entries| ==> idx.entries[i].normalized != st
    requires |PartialCandidates(st, idx.entries)| == 0
    ensures var r := MatchSearchText(st, idx, scorer);
      var fuzzy := FindFuzzyMatch(st, idx.entries, scorer);
      && (fuzzy.None? ==> r.None?)
      && (fuzzy.Some? ==> (r.None? <==> ShouldExcludeField(fuzzy.value.userFieldId, st, idx.exclusions)))
      && (r.Some? ==> r == fuzzy)
  {
  }

  /** A result scores within [0, MAX]; it is tagged exact exactly when it
      scores 0, fuzzy only above PARTIAL, and partial only below 0.3. */
  predicate InBand(r: Option<FieldMatchResult>) {
    r.Some? ==>
      && 0.0 <= r.value.score <= MAX_THRESHOLD
      && (r.value.matchType == Exact <==> r.value.score == 0.0)
      && (r.value.matchType == Fuzzy ==> r.value.score > PARTIAL_THRESHOLD)
      && (r.value.matchType == Partial ==> 0.0 < r.value.score < 0.3)
  }

  /** With Fuse's scores in [0, 1], every result scores within [0, MAX]; it is
      tagged exact exactly when it scores 0, fuzzy only above PARTIAL, and a
      partial tag stays below 0.3 (the containment branch can pass 0.2). */
  lemma MatchResultInvariant(st: string, idx: Index, scorer: Scorer)
    requires ScorerInRange(scorer)
    ensures InBand(MatchSearchText(st, idx, scorer))
  {
    var es := idx.entries;
    if |st| >= 2 && FindExactMatch(st, es).None? && FindPartialMatch(st, es).None? {
      var fuzzy := FindFuzzyMatch(st, es, scorer);
      if fuzzy.Some? {
        var i :| 0 <= i < |es| && scorer(st, es[i].normalized) == Some(fuzzy.value.score) && fuzzy.value == FuzzyResult(es[i], fuzzy.value.score);
        assert 0.0 <= fuzzy.value.score <= 1.0;
      }
    }
  }

  /** The placeholder is consulted only when the label is the empty string. */
  lemma PlaceholderOnlyWithoutLabel(field: ParsedFormField, placeholder: string, idx: Index, scorer: Scorer)
    requires field.labelText != ""
    ensures MatchFormField(field.(placeholder := placeholder), idx, scorer) == MatchFormField(field, idx, scorer)
  {
    assert ExtractSearchText(field.(placeholder := placeholder)) == ExtractSearchText(field);
  }

  /** A search text equal to some indexed keyword's normalized form (of at
      least two characters) is classified exactly, with score 0, through an
      entry whose keyword normalizes to that text, unless that entry's field
      is vetoed. */
  lemma NormalizedKeywordIsExact(st: string, idx: Index, scorer: Scorer, k: int)
    requires 0 <= k < |idx.entries| && idx.entries[k].normalized == st && |st| >= 2
    ensures var r := MatchSearchText(st, idx, scorer);
      r.None? || exists k' :: 0 <= k' < |idx.entries| && idx.entries[k'].normalized == st && r.value == ExactResult(idx.entries[k'])
  {
    assert KeywordIs(idx.entries[k], st);
    FindExactMatchIsFirst(st, idx.entries);
  }

  /** The same for a keyword of the dictionary itself: its normalized form is
      classified exactly through a keyword that normalizes alike. */
  lemma KeywordAloneIsExact(dict: Dictionary, scorer: Scorer, i: int, j: int)
    requires 0 <= i < |dict.keywords| && 0 <= j < |dict.keywords[i].1|
    requires |NormalizeText(dict.keywords[i].1[j])| >= 2
    ensures var st := NormalizeText(dict.keywords[i].1[j]);
      var r := MatchSearchText(st, Prepare(dict), scorer);
      r.None? || (r.value.matchType == Exact && r.value.score == 0.0 && NormalizeText(r.value.matchedKeyword) == st)
  {
    var idx := Prepare(dict);
    var st := NormalizeText(dict.keywords[i].1[j]);
    EntriesComplete(dict.keywords, i, j);
    var k :| 0 <= k < |idx.entries| && idx.entries[k] == MakeEntry(dict.keywords[i].0, dict.keywords[i].1[j]);
    NormalizedKeywordIsExact(st, idx, scorer, k);
    var r := MatchSearchText(st, idx, scorer);
    if r.Some? {
      var k' :| 0 <= k' < |idx.entries| && idx.entries[k'].normalized == st && r.value == ExactResult(idx.entries[k']);
      EntriesSound(dict.keywords, idx.entries[k']);
    }
  }

  /** Each field's match, computed independently of the others. */
  function MatchEach(fields: seq<ParsedFormField>, idx: Index, scorer: Scorer): (ms: seq<Option<FieldMatchResult>>)
    ensures |ms| == |fields|
  {
    MapFields(fields, Matcher(idx, scorer))
  }

  /** `matchFormField` against a fixed index and scorer. */
  function Matcher(idx: Index, scorer: Scorer): ParsedFormField -> Option<FieldMatchResult> {
    field => MatchFormField(field, idx, scorer)
  }

  /** `f` applied to every field, in order. */
  function MapFields<T>(fields: seq<ParsedFormField>, f: ParsedFormField -> T): (ts: seq<T>)
    ensures |ts| == |fields|
  {
    if |fields| == 0 then [] else [f(fields[0])] + MapFields(fields[1..], f)
  }

  /** Element `i` of the mapped sequence is `f` of field `i`. */
  lemma {:induction false} MapFieldsPointwise<T>(fields: seq<ParsedFormField>, f: ParsedFormField -> T, i: int)
    requires 0 <= i < |fields|
    ensures MapFields(fields, f)[i] == f(fields[i])
  {
    if i > 0 {
      MapFieldsPointwise(fields[1..], f, i - 1);
      assert fields[1..][i - 1] == fields[i];
    }
  }

  /** Field `i`'s match depends on field `i` alone. */
  lemma MatchEachPointwise(fields: seq<ParsedFormField>, idx: Index, scorer: Scorer, i: int)
    requires 0 <= i < |fields|
    ensures MatchEach(fields, idx, scorer)[i] == MatchFormField(fields[i], idx, scorer)
  {
    MapFieldsPointwise(fields, Matcher(idx, scorer), i);
  }

  /** `fields[i]` is the last of `fields[..k]` carrying its element id. */
  predicate IsLastWithId(fields: seq<ParsedFormField>, i: int, k: int) {
    && 0 <= i < k <= |fields|
    && forall j :: i < j < k ==> fields[j].elementId != fields[i].elementId
  }

  /** Sets `fields[i].elementId := values[i]` in a fresh map, in order, as
      `Map.set` does: each id ends up with the value of its last field. */
  method ByElementId<V>(fields: seq<ParsedFormField>, values: seq<V>) returns (results: map<string, V>)
    requires |values| == |fields|
    ensures forall id :: id in results <==> exists i :: 0 <= i < |fields| && fields[i].elementId == id
    ensures forall i :: IsLastWithId(fields, i, |fields|) ==> fields[i].elementId in results && results[fields[i].elementId] == values[i]
  {
    results := map[];
    var k := 0;
    while k < |fields|
      invariant 0 <= k <= |fields|
      invariant forall id :: id in results <==> exists i :: 0 <= i < k && fields[i].elementId == id
      invariant forall i :: IsLastWithId(fields, i, k) ==> fields[i].elementId in results && results[fields[i].elementId] == values[i]
    {
      results := results[fields[k].elementId := values[k]];
      k := k + 1;
    }
  }

  /** `matchFormFields`: every field's element id is mapped to that field's
      match, a later field with the same id overwriting an earlier one. */
  method MatchFormFields(fields: seq<ParsedFormField>, idx: Index, scorer: Scorer) returns (results: map<string, Option<FieldMatchResult>>)
    ensures forall id :: id in results <==> exists i :: 0 <= i < |fields| && fields[i].elementId == id
    ensures forall i :: IsLastWithId(fields, i, |fields|) ==>
      fields[i].elementId in results && results[fields[i].elementId] == MatchFormField(fields[i], idx, scorer)
  {
    var ms := MatchEach(fields, idx, scorer);
    results := ByElementId(fields, ms);
    forall i | 0 <= i < |fields|
      ensures ms[i] == MatchFormField(fields[i], idx, scorer)
    {
      MatchEachPointwise(fields, idx, scorer, i);
    }
  }
}
