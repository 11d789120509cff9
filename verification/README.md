# NugulForm autofill core in Dafny

NugulForm is a browser extension that fills Google Forms from a user's saved
profile: Telegram and Twitter handles, e-mail, wallet addresses and so on.
This project models the pure logic behind the extension and proves properties
of it. It covers five parts:

- **Field matcher** (`field-matcher.ts`): decides which profile field a form
  question asks for. The question's label, or else its placeholder, is
  normalized. Three tiers are then tried in order: exact keyword equality,
  substring containment scored by length ratio, and fuzzy search. An exclusion
  list may veto whichever candidate wins.
- **Math solver** (`math-solver.ts`), used for anti-bot questions:
  - reading numerals (digits, Sino-Korean and native Korean words, English
    words);
  - extracting the longest arithmetic expression from a question;
  - evaluating it with JavaScript's semantics and rounding to two decimals;
  - reading a number out of an answer option.
- **Form filler** (`form-filler.ts`): fills a text field only when it is blank.
  For a radio or checkbox question it clicks the option that matches the value.
  Otherwise it clicks the first "positive" option (yes, 동의, …), or the first
  option when the fallback switch is on. The positive/fallback choice never
  touches an answered question; an option matching the value is clicked
  unless that option itself is already checked, whatever else is checked.
- **Options storage** (`options-storage.ts`): the profile fields and the
  feature switches, their defaults, and the four update operations.
- **Constants** (`constants.ts`): the keyword dictionary, the positive
  keywords, the Fuse options and the score thresholds.

## How the model is built

Each source file is one module:

- `field_matcher.dfy`, `text_normalizer.dfy`
- `numerals.dfy`, `math_extract.dfy`, `math_lexer.dfy`, `math_parser.dfy`,
  `math_calc.dfy`, `option_number.dfy`
- `form_filler.dfy`, `options_storage.dfy`, `constants.dfy`
- `autofill_types.dfy`

The JavaScript built-ins the code relies on are modelled once each:

- `js_string.dfy`: `trim`, `toLowerCase`, `replace(/\s+/g, …)`, `includes`
- `js_number.dfy`: IEEE zeros, infinities and NaN for `+ - * /`, and
  `Math.round(x * 100) / 100`

Things the code receives from outside become parameters:

- **Fuse scorer.** `Scorer` gives each (search text, normalized keyword) pair
  an optional score. The model takes Fuse's ordering as given: lowest score
  first, with ties going to the earlier index.
- **Exclusion table.** `EXCLUSION_KEYWORDS` is imported by
  `field-matcher.ts:5` but is not defined in `constants.ts`, so it is a
  parameter of the dictionary.
- **Document element.** The filler sees a `FieldElement`: whether it is a text
  control, its current text, and its options with their checked state. An
  operation returns an `Outcome` (the boolean the source returns, plus the
  effect it has on the page), and `After` applies that effect.
- **Expression evaluation.** `new Function('return (…)')` is modelled as a
  lexer and a recursive-descent parser for the JavaScript expression subset
  the whitelist admits:
  - literals, unary and binary `+ - * /`, parentheses;
  - strict-mode leading-zero literals are rejected;
  - `++` and `--` are rejected, as JavaScript's update operators;
  - values are evaluated as IEEE-style numbers over exact reals.

Every operation has a partner it is proved against:

| operation | partner |
|---|---|
| printing an expression | the parser reads it back |
| `numberToKoreanVariants` | `convertKoreanNumber` and the corrected (longest-key-first) `extractNumberFromOption` read each variant back |
| the partial tier's strict-`<` scan | `FirstMinimum`, a declarative "first lowest score" |
| the parenthesis loop | `Balanced` |
| `normalizeText` | its output shape `IsNormalized` (and idempotence) |
| each storage update | point-wise lookups |

## Model

| member | source | states |
|---|---|---|
| TextNormalizer.ReplaceSpecialChars | packages/shared/lib/autofill/field-matcher.ts:26 | length kept; every output char is a word char, whitespace or Hangul syllable; kept chars unchanged |
| TextNormalizer.NormalizeText | packages/shared/lib/autofill/field-matcher.ts:23-28 | the normalized text is never longer than the input |
| TextNormalizer.NormalizeTextIsNormalized | packages/shared/lib/autofill/field-matcher.ts:23-28 | every output is lower-case word chars, Hangul and single inner spaces, with no space at either end |
| TextNormalizer.NormalizeSteps | packages/shared/lib/autofill/field-matcher.ts:24-27 | lower-casing, replacing, collapsing and trimming, in the code's order, yield normalized shape |
| TextNormalizer.NormalizedIsFixpoint | packages/shared/lib/autofill/field-matcher.ts:23-28 | a text already in normalized shape is left unchanged |
| TextNormalizer.NormalizeIdempotent | packages/shared/lib/autofill/field-matcher.ts:23-28 | normalizing twice equals normalizing once |
| TextNormalizer.NormalizeNonEmpty | packages/shared/lib/autofill/field-matcher.ts:23-28 | a text starting with a word char or a Hangul syllable does not normalize to "" |
| JsString.ToLowerCase | packages/shared/lib/autofill/field-matcher.ts:25 | length kept; each char lower-cased on its own |
| JsString.ToLowerCaseIdempotent | packages/shared/lib/autofill/form-filler.ts:61 | lower-casing twice equals lower-casing once |
| JsString.LowerChar | packages/shared/lib/autofill/field-matcher.ts:25 | an upper-case ASCII letter maps to its lower-case letter (code + 32); every other char is kept; no upper-case letter remains |
| JsString.ToLowerCaseNoUpper | packages/shared/lib/autofill/math-solver.ts:136 | a text without upper-case letters is its own lower-case |
| JsString.Trim | packages/shared/lib/autofill/math-solver.ts:136 | the result is the input minus maximal whitespace runs at both ends, and it neither starts nor ends with whitespace |
| JsString.TrimTwice | packages/shared/lib/autofill/form-filler.ts:41 | trimming is idempotent |
| JsString.TrimKeepsEnds | packages/shared/lib/autofill/math-solver.ts:136 | a text without whitespace at either end is its own trim |
| JsString.TrimNoWhitespace | packages/shared/lib/autofill/math-solver.ts:136 | a text with no whitespace is its own trim |
| JsString.CollapseWhitespace | packages/shared/lib/autofill/math-solver.ts:184 | no two whitespace chars in a row; every char is a space or a non-whitespace char of the input; empty iff the input is; starts with whitespace iff the input does |
| JsString.CollapseFixpoint | packages/shared/lib/autofill/field-matcher.ts:27 | a text whose whitespace is single spaces is unchanged |
| JsString.RemoveWhitespace | packages/shared/lib/autofill/math-solver.ts:195 | no whitespace left; every char from the input; identity on whitespace-free text |
| Constants.FieldKeywordsWellFormed | packages/shared/lib/autofill/constants.ts:12-129 | eight fields with distinct ids; each has keywords, none repeated, all starting with a letter normalization keeps |
| Constants.KeywordsNormalizeNonEmpty | packages/shared/lib/autofill/constants.ts:12-129 | in a well-formed dictionary no keyword normalizes to "" |
| Constants.PositiveKeywordsShape | packages/shared/lib/autofill/constants.ts:135-158 | the positive keywords are distinct and include yes, y, ok, 예, 네, 동의 |
| Constants.ThresholdsAndFuseOptions | packages/shared/lib/autofill/constants.ts:163-188 | 0 = EXACT < PARTIAL < MAX ≤ 1; MAX equals Fuse's threshold; case-insensitive, location-free, scored search on `keyword` with min length 2 |
| FieldMatcher.EntriesComplete | packages/shared/lib/autofill/field-matcher.ts:46-53 | every dictionary keyword becomes a search item under its own field id |
| FieldMatcher.EntriesSound | packages/shared/lib/autofill/field-matcher.ts:46-53 | every search item comes from some (field, keyword) of the dictionary |
| FieldMatcher.DetermineMatchType | packages/shared/lib/autofill/field-matcher.ts:33-37 | exact iff score ≤ EXACT; partial iff EXACT < score ≤ PARTIAL; fuzzy iff score > PARTIAL |
| FieldMatcher.FindExactMatch | packages/shared/lib/autofill/field-matcher.ts:71-88 | None iff no normalized keyword equals the text; a hit is exact with score 0 |
| FieldMatcher.FindExactMatchIsFirst | packages/shared/lib/autofill/field-matcher.ts:72-84 | the hit is the first entry in dictionary order whose normalized keyword equals the text, reported with its raw keyword |
| FieldMatcher.FirstMinimum | packages/shared/lib/autofill/field-matcher.ts:107-123 | reference selection: None iff no candidates, else the lowest score, earliest among equals |
| FieldMatcher.PickBestIsFirstMinimum | packages/shared/lib/autofill/field-matcher.ts:94-136 | the scan that replaces the best only on a strictly lower score picks the first minimum |
| FieldMatcher.PartialCandidatesBounded | packages/shared/lib/autofill/field-matcher.ts:104-121 | every partial candidate is tagged partial and scores in [0.01, 0.3) |
| FieldMatcher.FindPartialMatch | packages/shared/lib/autofill/field-matcher.ts:93-137 | the result is the first minimum of the contains/contained candidates, partial, with score in [0.01, 0.3) |
| FieldMatcher.PickBestFromStart | packages/shared/lib/autofill/field-matcher.ts:94-95 | starting from no match and best score 1, the scan picks the first minimum of candidates scoring below 1 |
| FieldMatcher.FindFuzzyMatch | packages/shared/lib/autofill/field-matcher.ts:142-159 | a hit scores ≤ MAX, is typed by its score, comes from a scored item and beats every other scored item; None iff every scored item is above MAX |
| FieldMatcher.FuzzyCandidatesSound | packages/shared/lib/autofill/field-matcher.ts:144-149 | every fuzzy candidate is an item the scorer scored, carrying that score |
| FieldMatcher.FuzzyCandidatesComplete | packages/shared/lib/autofill/field-matcher.ts:144-149 | every scored item is a fuzzy candidate |
| FieldMatcher.FindFuzzyFacts | packages/shared/lib/autofill/field-matcher.ts:144-149 | Fuse's top hit is absent only when nothing scores, and otherwise is a lowest-scored item |
| FieldMatcher.ExclusionsOf | packages/shared/lib/autofill/field-matcher.ts:168-169 | None iff no exclusion row has the id; else the first row's list |
| FieldMatcher.AnyOccurs | packages/shared/lib/autofill/field-matcher.ts:172-175 | true iff some word occurs in the search text |
| FieldMatcher.ShouldExcludeField | packages/shared/lib/autofill/field-matcher.ts:167-176 | never true without a row for the id; true iff some word of the first row occurs in the search text |
| FieldMatcher.Prepare | packages/shared/lib/autofill/field-matcher.ts:173 | exclusion words are normalized row by row, ids kept |
| FieldMatcher.MatchSearchText | packages/shared/lib/autofill/field-matcher.ts:198-234 | texts shorter than 2 give no result; a result is never vetoed by the exclusions |
| FieldMatcher.ExtractSearchText | packages/shared/lib/autofill/field-matcher.ts:181-185 | the search text is normalized; it is the normalized label when the label is non-empty, and the normalized placeholder only when the label is "" |
| FieldMatcher.MatchFormField | packages/shared/lib/autofill/field-matcher.ts:198-234 | a search text under 2 characters gives no result; a result is never of a field whose exclusion words occur in the search text; with scores in [0, 1] the result's score lies in [0, MAX], it is exact iff it scores 0 and fuzzy only above PARTIAL |
| FieldMatcher.ExactTierDecides | packages/shared/lib/autofill/field-matcher.ts:204-211 | if a keyword normalizes to the text, the first such entry decides: its exact result, or nothing iff its field is excluded |
| FieldMatcher.PartialTierDecides | packages/shared/lib/autofill/field-matcher.ts:214-221 | with no exact hit but some partial candidate, the first minimum decides, or nothing iff its field is excluded |
| FieldMatcher.FuzzyTierDecides | packages/shared/lib/autofill/field-matcher.ts:224-233 | with neither exact nor partial candidates, the fuzzy hit decides, or nothing iff excluded or absent |
| FieldMatcher.MatchResultInvariant | packages/shared/lib/autofill/field-matcher.ts:198-234 | for an in-range scorer: score in [0, MAX]; exact iff score 0; fuzzy ⇒ score > PARTIAL; partial ⇒ 0 < score < 0.3 |
| FieldMatcher.PlaceholderOnlyWithoutLabel | packages/shared/lib/autofill/field-matcher.ts:181-185 | a non-empty label makes the placeholder irrelevant |
| FieldMatcher.NormalizedKeywordIsExact | packages/shared/lib/autofill/field-matcher.ts:204-210 | a text equal to some normalized keyword gets an exact result or none |
| FieldMatcher.KeywordAloneIsExact | packages/shared/lib/autofill/field-matcher.ts:71-88 | a label that is just a dictionary keyword matches exactly (score 0, a keyword normalizing to the label) or is vetoed |
| FieldMatcher.MatchEachPointwise | packages/shared/lib/autofill/field-matcher.ts:242-245 | field i is matched on its own |
| FieldMatcher.ByElementId | packages/shared/lib/autofill/field-matcher.ts:240-247 | the map's keys are exactly the fields' element ids, and each id holds the value of its last field (the `Map`'s insertion order is not kept; no caller in the core iterates it) |
| FieldMatcher.MatchFormFields | packages/shared/lib/autofill/field-matcher.ts:239-248 | keys are the element ids; each id maps to the match of the last field carrying it (as a Dafny `map`, without the `Map`'s insertion order, which no caller in the core iterates) |
| OptionsStorage.FindOption | packages/storage/lib/impl/options-storage.ts:93 | `find` by id: None iff absent, else the first index with that id |
| OptionsStorage.IsOptionEnabled | packages/storage/lib/impl/options-storage.ts:92-95 | true iff the first option with that id exists and is enabled |
| OptionsStorage.GetAutoSelectOptions | packages/storage/lib/impl/options-storage.ts:101-129 | the two switches are read from the positive and fallback options |
| OptionsStorage.DefaultSwitches | packages/storage/lib/impl/options-storage.ts:157-187 | by default positive select is on, fallback off, floating button on, math auto-answer on |
| OptionsStorage.DefaultIds | packages/storage/lib/impl/options-storage.ts:157-182 | the default options start with positive select, fallback, floating button and math auto-answer, in that order |
| OptionsStorage.UpdateUserField | packages/storage/lib/impl/options-storage.ts:201-206 | every field with the id gets the value; everything else unchanged; options untouched |
| OptionsStorage.ClearUserField | packages/storage/lib/impl/options-storage.ts:208-213 | fields with the id become ""; other fields and the options unchanged |
| OptionsStorage.ClearIsUpdateWithEmpty | packages/storage/lib/impl/options-storage.ts:201-213 | clearing is updating with "" |
| OptionsStorage.UpdateUserFieldLastWins | packages/storage/lib/impl/options-storage.ts:201-206 | two updates of one id leave the second value |
| OptionsStorage.ToggleAutoOption | packages/storage/lib/impl/options-storage.ts:215-222 | options with the id flip; all else unchanged; user fields untouched |
| OptionsStorage.SetAutoOption | packages/storage/lib/impl/options-storage.ts:224-229 | options with the id take the value; all else unchanged; no-op for an unknown id |
| OptionsStorage.ToggleInvolution | packages/storage/lib/impl/options-storage.ts:215-222 | toggling twice restores the state |
| OptionsStorage.SetAutoOptionIdempotent | packages/storage/lib/impl/options-storage.ts:224-229 | setting twice equals setting once |
| OptionsStorage.SetThenLookup | packages/storage/lib/impl/options-storage.ts:92-95 | after setting an existing id, lookup returns the value, and other ids read as before |
| OptionsStorage.ToggleThenLookup | packages/storage/lib/impl/options-storage.ts:92-95 | after toggling an existing id, lookup is negated, and other ids read as before |
| FormFiller.After | packages/shared/lib/autofill/form-filler.ts:45-47 | option texts and the control kind are kept; no effect leaves the element as it was; a set value replaces only the text; a click checks the clicked option |
| FormFiller.FillTextField | packages/shared/lib/autofill/form-filler.ts:37-55 | non-text element or non-blank current value ⇒ false and no effect; else true and the value is written |
| FormFiller.FillTextFieldKeepsWritten | packages/shared/lib/autofill/form-filler.ts:41-43 | after a fill with a non-blank value, a second fill does nothing, and a blank field now holds the value |
| FormFiller.IsPositiveOption | packages/shared/lib/autofill/form-filler.ts:60-63 | positive iff some positive keyword occurs in the lower-cased, trimmed text |
| FormFiller.MatchesValue | packages/shared/lib/autofill/form-filler.ts:150-154 | an option whose text equals the value up to ASCII case matches it, and an empty value matches every option |
| FormFiller.MatchesValueIgnoresCase | packages/shared/lib/autofill/form-filler.ts:150-154 | matching depends only on the lower-cased text and value |
| FormFiller.SomeIncludedMeans | packages/shared/lib/autofill/form-filler.ts:62 | `some(k => s.includes(k))` holds iff some keyword occurs in s |
| FormFiller.FindPositiveOption | packages/shared/lib/autofill/form-filler.ts:68-69 | None iff no option is positive, else the first positive one |
| FormFiller.FindMatchingOption | packages/shared/lib/autofill/form-filler.ts:150-154 | None iff no option text contains or is contained in the value (case-folded), else the first such |
| FormFiller.ClickOption | packages/shared/lib/autofill/form-filler.ts:74-91 | an already checked option gives false and no click; otherwise true and that option is clicked |
| FormFiller.FillSelectionField | packages/shared/lib/autofill/form-filler.ts:98-126 | nothing when empty or answered; a click iff true; a non-first click needs positive select; a positive click is the first positive option; a non-positive click is the fallback on option 0 |
| FormFiller.FillSelectionFieldChoice | packages/shared/lib/autofill/form-filler.ts:112-125 | the decision table: first positive option when enabled and present; else option 0 when fallback is on; else nothing |
| FormFiller.FillFormField | packages/shared/lib/autofill/form-filler.ts:131-168 | select ⇒ nothing; text/textarea ⇒ the text fill; radio/checkbox ⇒ the matching option's click when the value is non-empty and matches, else the selection fill |
| FormFiller.FillFormFieldSettles | packages/shared/lib/autofill/form-filler.ts:131-168 | filling a filled field again changes nothing |
| FormFiller.ChoiceSettles | packages/shared/lib/autofill/form-filler.ts:144-159 | after a radio/checkbox fill, a second fill has no effect |
| FormFiller.FillSelectionFieldOnce | packages/shared/lib/autofill/form-filler.ts:109-110 | after the selection fill clicks, the question counts as answered and a second run does nothing |
| Numerals.NatToString | packages/shared/lib/autofill/math-solver.ts:75 | a non-empty digit string with no leading zero |
| Numerals.DigitsValueOfNatToString | packages/shared/lib/autofill/math-solver.ts:75 | the digits read back as the number |
| Numerals.ParseNumber | packages/shared/lib/autofill/math-solver.ts:139-142 | "" reads as 0; an all-digit string reads as its exact value over the reals (not rounded to a double); anything read starts with a digit, a sign or a point |
| Numerals.IntToString | packages/shared/lib/autofill/math-solver.ts:75 | `String(n)`: digits for n ≥ 0, a minus and digits for n < 0 |
| Numerals.ParseIntToString | packages/shared/lib/autofill/math-solver.ts:139 | parsing the printed integer gives the integer back, over the reals (`Number(String(n)) == n` in JavaScript only while n is a safe integer) |
| Numerals.Lookup | packages/shared/lib/autofill/math-solver.ts:145-151 | None iff no row has the key, else the first such row's value |
| Numerals.LookupDistinct | packages/shared/lib/autofill/math-solver.ts:10-64 | in a table without repeated words, each row's word finds that row's value |
| Numerals.TablesHaveNoDuplicates | packages/shared/lib/autofill/math-solver.ts:10-64 | neither number table repeats a word |
| Numerals.KoreanTablesAgree | packages/shared/lib/autofill/math-solver.ts:78-90 | each Korean word offered for n is a key of the Korean table with value n |
| Numerals.EnglishTablesAgree | packages/shared/lib/autofill/math-solver.ts:97-119 | each English word offered for n is a key of the English table with value n |
| Numerals.NumberToKoreanVariants | packages/shared/lib/autofill/math-solver.ts:71-126 | 4 spellings for 0..10, 2 for 11..20, 1 otherwise, the first always the decimal one |
| Numerals.KoreanRowsOffered | packages/shared/lib/autofill/math-solver.ts:78-94 | every Korean table row is among the words offered for its value, which lies in 0..10 |
| Numerals.ConvertKoreanNumber | packages/shared/lib/autofill/math-solver.ts:135-155 | None iff the trimmed, lower-cased text is no number and in neither table; a number literal decides first, then a Korean row's value, then (only with no Korean row) an English row's value |
| Numerals.VariantsConvertBack | packages/shared/lib/autofill/math-solver.ts:71-155 | every spelling offered for n converts back to n |
| Numerals.ConvertDecimalBack | packages/shared/lib/autofill/math-solver.ts:139-142 | the decimal spelling of any integer converts back to it, over the reals (see Numerals.ParseNumber under "## Left out") |
| Numerals.ConvertKoreanBack | packages/shared/lib/autofill/math-solver.ts:145-147 | each Korean word for n converts to n |
| Numerals.ConvertEnglishBack | packages/shared/lib/autofill/math-solver.ts:150-152 | each English word for n converts to n |
| Numerals.ConvertKoreanNumberAsWritten | packages/shared/lib/autofill/math-solver.ts:145-146 | a non-number result is an inherited property named by the normalized text |
| Numerals.AsWrittenAgrees | packages/shared/lib/autofill/math-solver.ts:135-155 | away from inherited keys the code as written equals the corrected conversion |
| Numerals.ToJs | packages/shared/lib/autofill/math-solver.ts:154 | a number result maps to a JS number and no result to null, never to an inherited value |
| Numerals.ConstructorIsNotANumber | packages/shared/lib/autofill/math-solver.ts:145-146 | "constructor" yields the inherited constructor as written, and None when corrected |
| OptionNumber.FirstDigit | packages/shared/lib/autofill/math-solver.ts:253 | index of the first ASCII digit, or the length |
| OptionNumber.DecimalMatchLength | packages/shared/lib/autofill/math-solver.ts:253 | the greedy `\d+(\.\d+)?` at a digit: a decimal match that no further digit or `.digit` extends |
| OptionNumber.FirstDecimal | packages/shared/lib/autofill/math-solver.ts:253-257 | None iff no digit; else the exact real value of the first greedy match (JavaScript rounds it to a double) |
| OptionNumber.DecimalMatchAt | packages/shared/lib/autofill/math-solver.ts:253 | the greedy `\d+(\.\d+)?` match at a digit, as the substring it occupies |
| OptionNumber.DecimalMatchParses | packages/shared/lib/autofill/math-solver.ts:255 | `Number` of any such match is a number |
| OptionNumber.FirstDecimalOfDigits | packages/shared/lib/autofill/math-solver.ts:253-256 | a natural written after digit-free text, and not continued by a digit or point, is the first match's value |
| OptionNumber.FirstFound | packages/shared/lib/autofill/math-solver.ts:260-273 | None iff no key is found; else the value of the first row, in table order, whose key is found |
| OptionNumber.ExtractWith | packages/shared/lib/autofill/math-solver.ts:248-276 | None iff no digit, no Korean key anywhere, no English whole word; digits take precedence; else the first Korean key found in table order decides; only when no Korean key occurs does the first English whole word decide |
| OptionNumber.FirstFoundAt | packages/shared/lib/autofill/math-solver.ts:260-273 | the first row found decides the result |
| OptionNumber.WholeWordInWord | packages/shared/lib/autofill/math-solver.ts:268-269 | inside a single word, `\bu\b` matches iff u is the whole word |
| OptionNumber.SevenReadsAsOne | packages/shared/lib/autofill/math-solver.ts:260-264 | the code as written reads "일곱" (seven) as 1 |
| OptionNumber.KoreanBeforeEnglish | packages/shared/lib/autofill/math-solver.ts:259-273 | Korean words are searched before English ones: "일 two" reads as 1, not 2 |
| OptionNumber.ExtractNumberFromOptionAsWritten | packages/shared/lib/autofill/math-solver.ts:248-276 | the code as written: None iff no digit, no Korean key and no English whole word; a digit in the trimmed text decides through the first decimal literal; otherwise the first Korean key in declaration order decides; only with no Korean key, the first English whole word; any word's number is a whole number from 0 to 20 |
| OptionNumber.ExtractNumberFromOption | packages/shared/lib/autofill/math-solver.ts:248-276 | the corrected reader finds a number in exactly the texts where the code as written does; it reads the same number whenever a digit decides or no Korean key occurs; a word's number is a whole number from 0 to 20 |
| OptionNumber.ScanOrderSameRows | packages/shared/lib/autofill/math-solver.ts:10-36 | the corrected scan order holds exactly the Korean table's rows |
| OptionNumber.ScanOrderLongestFirst | packages/shared/lib/autofill/math-solver.ts:260-264 | the corrected scan order never lets a longer key follow a shorter one, and repeats no key |
| OptionNumber.LongestFirstFindsItself | packages/shared/lib/autofill/math-solver.ts:260-264 | scanning longest first, every key is found as itself |
| OptionNumber.VariantsReadBack | packages/shared/lib/autofill/math-solver.ts:248-276 | every spelling offered for a natural n reads back as n with the corrected (longest-key-first) extractNumberFromOption; the code as written does not (SevenReadsAsOne) |
| OptionNumber.KoreanWordReadsBack | packages/shared/lib/autofill/math-solver.ts:260-264 | each Korean word offered for n reads back as n with the corrected scan order |
| OptionNumber.EnglishWordReadsBack | packages/shared/lib/autofill/math-solver.ts:267-273 | each English word offered for n reads back as n |
| OptionNumber.WordReadsBack | packages/shared/lib/autofill/math-solver.ts:248-276 | any of the four spellings of n reads back as n with the corrected (longest-key-first) extractNumberFromOption |
| OptionNumber.DigitsReadFirst | packages/shared/lib/autofill/math-solver.ts:253-257 | digits embedded in an option (e.g. "5번") read as their number when no digit comes before them, whatever words surround them |
| OptionNumber.DecimalReadsBack | packages/shared/lib/autofill/math-solver.ts:253-257 | a decimal option reads back as its number |
| MathExtract.MathRuns | packages/shared/lib/autofill/math-solver.ts:166-167 | runs are non-empty and all math chars, and together are exactly the text's math chars in order |
| MathExtract.MathPrefix | packages/shared/lib/autofill/math-solver.ts:166 | the longest prefix of math chars: all math, and the next char is not |
| MathExtract.MathRunsAreRuns | packages/shared/lib/autofill/math-solver.ts:166-167 | each run is a maximal run of the text |
| MathExtract.CollapseKeepsQualifies | packages/shared/lib/autofill/math-solver.ts:176-184 | collapsing whitespace keeps the "digit op digit" pattern |
| MathExtract.Longest | packages/shared/lib/autofill/math-solver.ts:172-181 | "" iff nothing qualifies; else a longest qualifying candidate, the first among equals |
| MathExtract.QualifiesSkip | packages/shared/lib/autofill/math-solver.ts:176 | leading whitespace never decides whether a candidate qualifies |
| MathExtract.TrimAll | packages/shared/lib/autofill/math-solver.ts:174 | each candidate is its run trimmed |
| MathExtract.LongerReplaces | packages/shared/lib/autofill/math-solver.ts:176-178 | a qualifying run strictly longer than the best so far becomes the longest |
| MathExtract.ShorterKeeps | packages/shared/lib/autofill/math-solver.ts:176-178 | any other run leaves the best so far as the first longest |
| MathExtract.ExtractMathExpression | packages/shared/lib/autofill/math-solver.ts:163-185 | None iff no trimmed run qualifies; else the first longest qualifying run, trimmed and collapsed |
| MathExtract.ExtractedIsExpression | packages/shared/lib/autofill/math-solver.ts:163-185 | an extracted expression is math chars and single spaces, unpadded, and qualifies |
| MathExtract.CleanedRunIsExpression | packages/shared/lib/autofill/math-solver.ts:174-184 | a qualifying run, trimmed and collapsed, is math chars and single spaces, unpadded, and qualifies |
| MathLexer.LexNumber | packages/shared/lib/autofill/math-solver.ts:213 | no literal iff it is a point not followed by a digit, or a 0 followed by a digit (a strict-mode error); a read literal is non-negative and is not followed by a digit |
| MathLexer.Lex | packages/shared/lib/autofill/math-solver.ts:213 | a text of digits and operators with no leading zero always lexes |
| MathLexer.Unlex | packages/shared/lib/autofill/math-solver.ts:213 | printed tokens are digits and punctuators only |
| MathLexer.LexPunctThen | packages/shared/lib/autofill/math-solver.ts:213 | a punctuator before lexable text lexes as that token first |
| MathLexer.LexDigitsThen | packages/shared/lib/autofill/math-solver.ts:213 | a digit run without leading zero before a punctuator lexes as its number first |
| MathLexer.LexUnlex | packages/shared/lib/autofill/math-solver.ts:213 | printing tokens and lexing them back gives the tokens |
| MathParser.ParseTokens | packages/shared/lib/autofill/math-solver.ts:213 | the printed token form of any expression parses back to that expression |
| MathParser.Eval | packages/shared/lib/autofill/math-solver.ts:213 | whenever the expression has a value in plain real arithmetic (no division by zero anywhere), the JavaScript value is finite and equals it |
| MathParser.AdditiveOp | packages/shared/lib/autofill/math-solver.ts:213 | only `+` and `-` are additive operators |
| MathParser.MultiplicativeOp | packages/shared/lib/autofill/math-solver.ts:213 | only `*` and `/` are multiplicative operators |
| MathParser.ParseExpr | packages/shared/lib/autofill/math-solver.ts:213 | a parsed expression consumes at least one token and stays in bounds |
| MathParser.ParseTerm | packages/shared/lib/autofill/math-solver.ts:213 | a parsed term consumes at least one token and stays in bounds |
| MathParser.ParseUnary | packages/shared/lib/autofill/math-solver.ts:213 | a parsed unary consumes at least one token and stays in bounds |
| MathParser.ParsePrimary | packages/shared/lib/autofill/math-solver.ts:213 | a parsed primary consumes at least one token and stays in bounds |
| MathParser.Tokens | packages/shared/lib/autofill/math-solver.ts:213 | an expression prints as a number or a parenthesized group first, and as one token iff it is a literal |
| MathParser.Wrap | packages/shared/lib/autofill/math-solver.ts:213 | the `( … )` the code adds is one token at each end |
| MathParser.PrimaryReadsBack | packages/shared/lib/autofill/math-solver.ts:213 | an expression printed at a position is read back as a primary and as a unary, ending after its tokens |
| MathParser.ThreeOperandsAt | packages/shared/lib/autofill/math-solver.ts:213 | `x o1 y o2 z` laid out at a position parses as the precedence grouping, ending after z |
| MathParser.MulFirst | packages/shared/lib/autofill/math-solver.ts:213 | with `*` or `/` first, the first two operands bind first |
| MathParser.AddFirst | packages/shared/lib/autofill/math-solver.ts:213 | with `+` or `-` first, the grouping follows the second operator's precedence |
| MathParser.ParseWrappedTokens | packages/shared/lib/autofill/math-solver.ts:213 | the same inside the `( … )` the code adds |
| MathParser.ParseThreeOperands | packages/shared/lib/autofill/math-solver.ts:213 | `x o1 y o2 z` groups by precedence, then from the left |
| MathParser.ParseWrappedThreeOperands | packages/shared/lib/autofill/math-solver.ts:213 | the same inside the added parentheses |
| MathCalc.ParenScanSpec | packages/shared/lib/autofill/math-solver.ts:203-209 | the loop from a counter b accepts iff b plus every prefix depth stays ≥ 0 and the total reaches 0 |
| MathCalc.ParenCheckAcceptsBalanced | packages/shared/lib/autofill/math-solver.ts:203-209 | the loop accepts exactly the balanced texts |
| MathCalc.Answer | packages/shared/lib/autofill/math-solver.ts:216-221 | a value iff finite, within 0.005 of the result, a whole number of hundredths |
| MathCalc.Calculate | packages/shared/lib/autofill/math-solver.ts:192-226 | non-whitelisted or unbalanced ⇒ None; a value means the whitespace-free text parsed, its value is finite, and the answer is within 0.005 of it |
| MathCalc.Interpret | packages/shared/lib/autofill/math-solver.ts:213 | a text is read as an expression only if it splits into JavaScript literals and punctuators with no `++` or `--` |
| MathCalc.InterpretPrinted | packages/shared/lib/autofill/math-solver.ts:213 | the text printed for an expression over naturals is read back as that expression |
| MathCalc.CalculateReads | packages/shared/lib/autofill/math-solver.ts:198-219 | a whitelisted, balanced, whitespace-free text that parses calculates to the answer for its value |
| MathCalc.WhitespaceIgnored | packages/shared/lib/autofill/math-solver.ts:195 | whitespace never changes the answer |
| MathCalc.ExtractAndCalculate | packages/shared/lib/autofill/math-solver.ts:232-237 | no expression ⇒ None; else the calculation of the extracted expression |
| MathCalc.CalculatePrinted | packages/shared/lib/autofill/math-solver.ts:192-226 | any parenthesized expression over naturals calculates to its rounded value |
| MathCalc.PrintedText | packages/shared/lib/autofill/math-solver.ts:213 | the printed text of an expression lexes to its tokens |
| MathCalc.ThreeText | packages/shared/lib/autofill/math-solver.ts:213 | the printed `x o1 y o2 z` lexes to its tokens |
| MathCalc.PrintedIsCalculable | packages/shared/lib/autofill/math-solver.ts:195-200 | printed tokens pass the whitelist, hold no whitespace and are all math chars |
| MathCalc.BalancedPrinted | packages/shared/lib/autofill/math-solver.ts:203-209 | printed expressions pass the parenthesis check |
| MathCalc.DivisionByZeroIsNull | packages/shared/lib/autofill/math-solver.ts:216 | dividing by 0 gives null |
| MathCalc.DivisionByInfinityAnswersZero | packages/shared/lib/autofill/math-solver.ts:216 | only the final value is checked: `y / (x / 0)` with x ≠ 0 answers 0 rather than null |
| MathCalc.OverZeroNotFinite | packages/shared/lib/autofill/math-solver.ts:216 | any value over 0 gives no answer |
| MathCalc.CalculateThreeOperands | packages/shared/lib/autofill/math-solver.ts:192-226 | `x o1 y o2 z` calculates with JavaScript precedence |
| MathCalc.ExtractAndCalculateThree | packages/shared/lib/autofill/math-solver.ts:232-237 | a question that is `a o1 b o2 c` over naturals is answered with precedence |
| MathCalc.ThreeQualifies | packages/shared/lib/autofill/math-solver.ts:176 | `a o1 b o2 c` over naturals is an expression candidate |
| MathCalc.ExtractWhole | packages/shared/lib/autofill/math-solver.ts:163-185 | a whitespace-free qualifying math text is extracted whole |
| MathCalc.SignsFollowedTokens | packages/shared/lib/autofill/math-solver.ts:213 | printed expressions never hold `++` or `--` |
| MathCalc.SignsFollowedThree | packages/shared/lib/autofill/math-solver.ts:213 | printed `x o1 y o2 z` never holds `++` or `--` |
| JsNumber.Negate | packages/shared/lib/autofill/math-solver.ts:213 | negates finite values, keeps NaN and infinities as such |
| JsNumber.Add | packages/shared/lib/autofill/math-solver.ts:213 | finite sum; NaN absorbs; ∞ + −∞ is NaN |
| JsNumber.Sub | packages/shared/lib/autofill/math-solver.ts:213 | finite difference |
| JsNumber.Mul | packages/shared/lib/autofill/math-solver.ts:213 | finite product; ∞·0 is NaN; sign is the xor of signs |
| JsNumber.Div | packages/shared/lib/autofill/math-solver.ts:213 | finite quotient for a non-zero divisor; x/0 is not finite; finite/∞ is zero; sign is the xor |
| JsNumber.DivisionByInfinity | packages/shared/lib/autofill/math-solver.ts:213 | y / (x / 0) is a zero, as in JavaScript |
| JsNumber.Round2Nearest | packages/shared/lib/autofill/math-solver.ts:218 | the rounding is a whole number of hundredths and no hundredth at or below x + 0.005 exceeds it |
| JsNumber.Round2 | packages/shared/lib/autofill/math-solver.ts:218 | `Math.round(x * 100) / 100` lies within 0.005 of x |

## Left out

- FormFiller.After: `clickOption` calls `element.click()` and then dispatches a second
  `MouseEvent('click')` (form-filler.ts:81-84). The pair is taken to leave the clicked option
  checked, and the page's own click handlers are not modelled; a control that toggled on each of
  the two events would end unchecked. FormFiller.FillFormFieldSettles, FormFiller.ChoiceSettles
  and FormFiller.FillSelectionFieldOnce rest on this reading of a click.
- `dispatchInputEvents`, focusing, and the `click`/`MouseEvent` dispatch are
  reduced to the `Effect` an operation has. The `try`/`catch` blocks guard
  only DOM calls, so they are not modelled.
- `inlineFillField` (form-filler.ts:173-192) is left out. It is a DOM query
  for a `data-params` container followed by `fillTextField`, which is
  modelled.
- Fuse.js is a parameter (`Scorer`); its Bitap scoring is not modelled. The
  same holds for `createFuseInstance`, `getFuseInstance` and
  `resetFuseInstance` (field-matcher.ts:42-66,253-255): the singleton index
  is the `Index` value built by `Prepare`.
- `EXCLUSION_KEYWORDS` and the `address` field are not defined in
  `constants.ts`, so the exclusion table is a parameter.
- The storage wrapper (`createStorage`, async `set`, live updates) is left
  out. The update operations are modelled as pure state transformers.
- The Google Forms DOM parser, the autofill service, React hooks and UI are
  not part of this model.
- JsString.ToLowerCase: maps only ASCII letters; JavaScript's full Unicode
  case mapping is not modelled. Every keyword and table word is ASCII or
  Hangul, but labels are arbitrary text, so a label with non-ASCII capitals
  can normalize differently: JavaScript lower-cases "İD" to "i̇d", which
  normalizes to "i d" where the model gives "d", and the Kelvin sign U+212A
  becomes ASCII "k".
- Numerals.ParseNumber: `Number()` is modelled for an optional sign and a
  decimal literal, and for "" (read as 0). Hexadecimal, binary, octal and
  exponent forms, `Infinity`, and inner whitespace read as no number here.
  A literal reads as its exact decimal value: `Number()`'s rounding to the
  nearest double ("12345678901234567891" gives 12345678901234567000) and its
  overflow to `Infinity` for 309 or more digits are not modelled. The same
  holds for Numerals.ParseIntToString, which is therefore a fact about the
  reals, true in JavaScript only for safe integers.
- OptionNumber.FirstDecimal: the first `\d+(\.\d+)?` match reads as its exact
  decimal value, as Numerals.ParseNumber does. JavaScript rounds it to a
  double, and a run of 309 or more digits gives `Infinity`, which
  `extractNumberFromOption` returns as a number.
- MathCalc.Calculate: arithmetic is exact over the reals, with IEEE zeros,
  infinities and NaN. Double rounding, overflow to infinity and the sign of
  a negative-zero answer are not modelled.
- MathCalc.Calculate: `**`, `/* */` comments and `//` inside the whitelist
  alphabet are not parsed, so the model answers None where JavaScript may
  compute `2**3` or `2+/**/3`.
- MathCalc.Calculate: `Math.round` is proved only within ±0.005, and
  JsNumber.Round2Nearest shows it picks the largest hundredth not above
  x + 0.005. Its tie-breaking on exact binary halves is not separately
  stated.
- Numerals.ConvertKoreanNumber: an empty or blank text gives 0, as the code
  does. The test suite (`__tests__/math-solver.test.ts:93`) expects null
  there; the model follows the code.
- FieldMatcher.FindPartialMatch: scores are exact reals, while the code
  computes them in IEEE doubles and keeps the first minimum with a strict
  `<`. Double rounding can break a tie that the reals call equal. For the
  label "x ha" the keyword "x" scores (1 - 1/4) * 0.2 = 0.15000000000000002
  and "x handle" scores (1 - 4/8) * 0.3 = 0.15 in doubles, so the code
  returns "x handle" where the model keeps the earlier "x". Both keywords
  belong to twitter, so `userFieldId` is the same on that input; only
  `matchedKeyword` (and the score's last digit) differ.
- Numerals.NumberToKoreanVariants: the argument is an integer. The code
  accepts any number: 2.5 gives ["2.5"], NaN gives ["NaN"], and values from
  1e21 up print in exponent form. Its callers pass the answer of a
  calculation, which can be a non-integer such as 2.5; the model covers
  integer answers, where the table words apply.
- FieldMatcher.FindFuzzyMatch: the top result is the lowest-scored item,
  earliest on ties. This is Fuse's default sort and is taken as given.

## Findings

| source | as written | input that shows it | evidently intended | confidence | as-written member | corrected member |
|---|---|---|---|---|---|---|
| packages/shared/lib/autofill/math-solver.ts:145-146 | `KOREAN_NUMBER_MAP[normalized]` on a plain object literal also finds inherited properties | `convertKoreanNumber("constructor")` returns the `Object` function instead of null | only the table's own keys are numbers; "constructor" gives null | high, not executed | Numerals.ConvertKoreanNumberAsWritten, Numerals.ConstructorIsNotANumber | Numerals.ConvertKoreanNumber, Numerals.VariantsConvertBack |
| packages/shared/lib/autofill/math-solver.ts:260-264 | Korean keys are searched with `includes` in declaration order, so the one-syllable "일" (1) is tried before "일곱" (7) | `extractNumberFromOption("일곱")` returns 1 | a spelled-out native number reads as itself (7) | high, not executed | OptionNumber.ExtractNumberFromOptionAsWritten, OptionNumber.SevenReadsAsOne | OptionNumber.ExtractNumberFromOption, OptionNumber.VariantsReadBack |
