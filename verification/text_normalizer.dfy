/**
  `normalizeText` of the field matcher: lower-case, turn every character that is
  not a word character, whitespace or a Hangul syllable into a space, collapse
  whitespace runs into one space and trim. Labels, placeholders and every
  dictionary keyword go through it, so all comparisons are made between
  normalized strings.
*/
module TextNormalizer {
  import opened JsString

  /** Characters that `replace(/[^\w\s가-힣]/g, ' ')` keeps. */
  predicate IsKeptChar(c: char) {
    IsWordChar(c) || IsWhitespace(c) || IsHangulSyllable(c)
  }

  /** `replace(/[^\w\s가-힣]/g, ' ')`: each other character becomes one space. */
  function ReplaceSpecialChars(s: string): (r: string)
    ensures |r| == |s|
    ensures forall i :: 0 <= i < |s| ==> IsKeptChar(r[i])
    ensures forall i :: 0 <= i < |s| ==> IsKeptChar(s[i]) ==> r[i] == s[i]
  {
    seq(|s|, i requires 0 <= i < |s| => if IsKeptChar(s[i]) then s[i] else ' ')
  }

  /** The characters normalized text is made of: lower-case ASCII word
      characters, the space and Hangul syllables. */
  predicate IsNormalizedChar(c: char) {
    IsAsciiLower(c) || IsAsciiDigit(c) || c == '_' || c == ' ' || IsHangulSyllable(c)
  }

  /** The shape of every output of `NormalizeText`. */
  predicate IsNormalized(s: string) {
    && (forall i :: 0 <= i < |s| ==> IsNormalizedChar(s[i]))
    && (|s| > 0 ==> s[0] != ' ' && s[|s| - 1] != ' ')
    && (forall i :: 0 <= i < |s| - 1 ==> !(s[i] == ' ' && s[i + 1] == ' '))
  }

  /** `normalizeText` (field-matcher.ts). */
  function NormalizeText(text: string): (r: string)
    ensures |r| <= |text|
  {
    Trim(CollapseWhitespace(ReplaceSpecialChars(ToLowerCase(text))))
  }

  /** Every output of `NormalizeText` has the normalized shape: only lower-case
      ASCII letters, digits, `_`, Hangul syllables and single inner spaces. */
  lemma NormalizeTextIsNormalized(text: string)
    ensures IsNormalized(NormalizeText(text))
  {
    NormalizeSteps(text);
  }

  /** The facts each stage of `NormalizeText` contributes to `IsNormalized`. */
  lemma NormalizeSteps(text: string)
    ensures IsNormalized(Trim(CollapseWhitespace(ReplaceSpecialChars(ToLowerCase(text)))))
  {
    var replaced := ReplaceSpecialChars(ToLowerCase(text));
    ReplacedChars(text);
    var collapsed := CollapseWhitespace(replaced);
    CollapsedChars(replaced);
    TrimmedIsNormalized(collapsed);
  }

  lemma ReplacedChars(text: string)
    ensures forall i :: 0 <= i < |text| ==>
      IsWhitespace(ReplaceSpecialChars(ToLowerCase(text))[i]) || IsNormalizedChar(ReplaceSpecialChars(ToLowerCase(text))[i])
  {
    var lowered := ToLowerCase(text);
    var replaced := ReplaceSpecialChars(lowered);
    forall i | 0 <= i < |text|
      ensures IsWhitespace(replaced[i]) || IsNormalizedChar(replaced[i])
    {
      assert !IsAsciiUpper(lowered[i]);
    }
  }

  /** Space is the only whitespace character normalized text may contain. */
  lemma NormalizedCharWhitespace(c: char)
    requires IsNormalizedChar(c)
    ensures IsWhitespace(c) <==> c == ' '
  {
  }

  lemma CollapsedChars(replaced: string)
    requires forall i :: 0 <= i < |replaced| ==> IsWhitespace(replaced[i]) || IsNormalizedChar(replaced[i])
    ensures forall i :: 0 <= i < |CollapseWhitespace(replaced)| ==> IsNormalizedChar(CollapseWhitespace(replaced)[i])
  {
    var collapsed := CollapseWhitespace(replaced);
    forall i | 0 <= i < |collapsed|
      ensures IsNormalizedChar(collapsed[i])
    {
      if collapsed[i] != ' ' {
        var j :| 0 <= j < |replaced| && replaced[j] == collapsed[i];
      }
    }
  }

  lemma TrimmedIsNormalized(collapsed: string)
    requires forall i :: 0 <= i < |collapsed| ==> IsNormalizedChar(collapsed[i])
    requires forall i :: 0 <= i < |collapsed| - 1 ==> !(IsWhitespace(collapsed[i]) && IsWhitespace(collapsed[i + 1]))
    ensures IsNormalized(Trim(collapsed))
  {
    var r := Trim(collapsed);
    var k := LeadingWhitespace(collapsed);
    assert forall i :: 0 <= i < |r| ==> r[i] == collapsed[k + i];
    forall i | 0 <= i < |r| - 1
      ensures !(r[i] == ' ' && r[i + 1] == ' ')
    {
      assert !(IsWhitespace(collapsed[k + i]) && IsWhitespace(collapsed[k + i + 1]));
    }
  }

  /** Normalized text is left unchanged by normalization. */
  lemma {:induction false} NormalizedIsFixpoint(s: string)
    requires IsNormalized(s)
    ensures NormalizeText(s) == s
  {
    assert ToLowerCase(s) == s;
    assert ReplaceSpecialChars(s) == s;
    CollapseFixpoint(s);
    assert TrimStart(s) == s;
    assert TrimEnd(s) == s;
  }

  /** `normalizeText` is idempotent, so normalizing an already-normalized keyword
      or label is harmless. */
  lemma NormalizeIdempotent(text: string)
    ensures NormalizeText(NormalizeText(text)) == NormalizeText(text)
  {
    NormalizeTextIsNormalized(text);
    NormalizedIsFixpoint(NormalizeText(text));
  }

  /** A string whose first character survives normalization (an ASCII letter or
      digit, `_` or a Hangul syllable) never normalizes to the empty string. */
  lemma NormalizeNonEmpty(text: string)
    requires |text| > 0 && (IsWordChar(text[0]) || IsHangulSyllable(text[0]))
    ensures |NormalizeText(text)| > 0
  {
    var lowered := ToLowerCase(text);
    var replaced := ReplaceSpecialChars(lowered);
    assert replaced[0] == lowered[0];
    var collapsed := CollapseWhitespace(replaced);
    assert !IsWhitespace(collapsed[0]);
    assert |TrimStart(collapsed)| > 0;
  }
}
