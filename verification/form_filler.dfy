/**
  The decisions of form-filler.ts: whether a text field may be written, which
  radio or checkbox option to click, and when to do nothing. The document is
  abstracted to a `FieldElement`; an operation returns its boolean result and
  the one change it makes to the element, and `After` applies that change.
*/
module FormFiller {
  import opened Optional
  import opened JsString
  import opened AutofillTypes
  import opened Constants
  import opened OptionsStorage

  /** The change a fill operation makes to the page. */
  datatype Effect = Untouched | ValueSet(value: string) | Clicked(index: nat)

  /** The boolean the operation returns, with the change it made. */
  datatype Outcome = Outcome(result: bool, effect: Effect)

  const NOTHING: Outcome := Outcome(false, Untouched)

  // ---------------------------------------------------------------------------
  // The page after a change

  /** The element after the change: a written value replaces the text, and a
      clicked option becomes checked (in a radio group, the only one). */
  function After(fieldType: FormFieldType, element: FieldElement, effect: Effect): (e: FieldElement)
    ensures e.isTextControl == element.isTextControl
    ensures |e.options| == |element.options|
    ensures forall j :: 0 <= j < |e.options| ==> e.options[j].text == element.options[j].text
    ensures effect.Untouched? ==> e == element
    ensures effect.ValueSet? ==> e.currentText == effect.value && e.options == element.options
    ensures effect.Clicked? && effect.index < |element.options| ==> e.options[effect.index].selected
  {
    match effect
    case Untouched => element
    case ValueSet(v) => element.(currentText := v)
    case Clicked(i) =>
      var opts := element.options;
      element.(options := seq(|opts|, j requires 0 <= j < |opts| =>
        opts[j].(selected := if j == i then true else if fieldType == Radio then false else opts[j].selected)))
  }

  // ---------------------------------------------------------------------------
  // Text fields

  /** `fillTextField`: an input or text area whose value is blank is written;
      a non-blank value is never overwritten. */
  function FillTextField(element: FieldElement, value: string): (r: Outcome)
    ensures !element.isTextControl ==> r == NOTHING
    ensures Trim(element.currentText) != "" ==> r == NOTHING
    ensures element.isTextControl && Trim(element.currentText) == "" ==> r == Outcome(true, ValueSet(value))
  {
    if !element.isTextControl then NOTHING
    else if element.currentText != "" && Trim(element.currentText) != "" then NOTHING
    else Outcome(true, ValueSet(value))
  }

  /** A written non-blank value is kept by a second fill, whatever it offers. */
  lemma FillTextFieldKeepsWritten(element: FieldElement, value: string, other: string)
    requires Trim(value) != ""
    ensures var e := After(Text, element, FillTextField(element, value).effect);
      && FillTextField(e, other) == NOTHING
      && (element.isTextControl && Trim(element.currentText) == "" ==> e.currentText == value)
  {
  }

  // ---------------------------------------------------------------------------
  // Options

  /** `isPositiveOption`: the lower-cased, trimmed text contains one of the
      positive keywords. */
  predicate IsPositiveOption(text: string)
    ensures IsPositiveOption(text) <==> exists k :: k in POSITIVE_KEYWORDS && Includes(Trim(ToLowerCase(text)), k)
  {
    SomeIncludedMeans(Trim(ToLowerCase(text)), POSITIVE_KEYWORDS);
    PositiveFor(text, POSITIVE_KEYWORDS)
  }

  /** `keywords.some(k => normalizedText.includes(k))` on the lower-cased,
      trimmed text. */
  predicate PositiveFor(text: string, keywords: seq<string>) {
    SomeIncluded(Trim(ToLowerCase(text)), keywords)
  }

  /** `keywords.some(k => s.includes(k))`, scanning in order. */
  predicate SomeIncluded(s: string, keywords: seq<string>) {
    |keywords| > 0 && (Includes(s, keywords[0]) || SomeIncluded(s, keywords[1..]))
  }

  /** The scan holds exactly when some keyword occurs in the text. */
  lemma {:induction false} SomeIncludedMeans(s: string, keywords: seq<string>)
    ensures SomeIncluded(s, keywords) <==> exists k :: k in keywords && Includes(s, k)
    decreases |keywords|
  {
    if |keywords| > 0 {
      SomeIncludedMeans(s, keywords[1..]);
      assert forall k :: k in keywords <==> k == keywords[0] || k in keywords[1..];
    }
  }

  /** `options.find(...)` from index `k` on: the first option whose text
      satisfies `p`. */
  function FindFrom(options: seq<FormOption>, p: string -> bool, k: nat): (r: Option<nat>)
    requires k <= |options|
    ensures r.None? <==> forall j :: k <= j < |options| ==> !p(options[j].text)
    ensures r.Some? ==> k <= r.value < |options| && p(options[r.value].text)
    ensures r.Some? ==> forall j :: k <= j < r.value ==> !p(options[j].text)
    decreases |options| - k
  {
    if k == |options| then None
    else if p(options[k].text) then Some(k)
    else FindFrom(options, p, k + 1)
  }

  /** `findPositiveOption`: the first option, in list order, with positive text. */
  function FindPositiveOption(options: seq<FormOption>): (r: Option<nat>)
    ensures r.None? <==> forall j :: 0 <= j < |options| ==> !IsPositiveOption(options[j].text)
    ensures r.Some? ==> r.value < |options| && IsPositiveOption(options[r.value].text)
    ensures r.Some? ==> forall j :: 0 <= j < r.value ==> !IsPositiveOption(options[j].text)
  {
    FindFrom(options, IsPositiveOption, 0)
  }

  /** The option `value` picks for a radio or checkbox question: its text and
      the value, both lower-cased, contain one another. */
  predicate MatchesValue(text: string, value: string)
    ensures ToLowerCase(text) == ToLowerCase(value) ==> MatchesValue(text, value)
    ensures value == "" ==> MatchesValue(text, value)
  {
    var t, v := ToLowerCase(text), ToLowerCase(value);
    assert OccursAt(t, t, 0);
    assert OccursAt(t, "", 0);
    Includes(t, v) || Includes(v, t)
  }

  /** Matching ignores ASCII case: an option matches a value exactly when
      their lower-cased forms match. */
  lemma MatchesValueIgnoresCase(text: string, value: string)
    ensures MatchesValue(text, value) <==> MatchesValue(ToLowerCase(text), ToLowerCase(value))
  {
    ToLowerCaseIdempotent(text);
    ToLowerCaseIdempotent(value);
  }

  /** The first option that matches `value`. */
  function FindMatchingOption(options: seq<FormOption>, value: string): (r: Option<nat>)
    ensures r.None? <==> forall j :: 0 <= j < |options| ==> !MatchesValue(options[j].text, value)
    ensures r.Some? ==> r.value < |options| && MatchesValue(options[r.value].text, value)
    ensures r.Some? ==> forall j :: 0 <= j < r.value ==> !MatchesValue(options[j].text, value)
  {
    FindFrom(options, t => MatchesValue(t, value), 0)
  }

  /** `clickOption` on option `i`: a checked option is not clicked again. */
  function ClickOption(options: seq<FormOption>, i: nat): (r: Outcome)
    requires i < |options|
    ensures options[i].selected <==> r == NOTHING
    ensures !options[i].selected <==> r == Outcome(true, Clicked(i))
  {
    if options[i].selected then NOTHING else Outcome(true, Clicked(i))
  }

  predicate AnySelected(options: seq<FormOption>) {
    exists j :: 0 <= j < |options| && options[j].selected
  }

  // ---------------------------------------------------------------------------
  // Selection fields

  /** `fillSelectionField`: nothing when there are no options or one is
      already checked; otherwise the first positive option when that rule is
      on and one exists; otherwise the first option when the fallback is on. */
  function FillSelectionField(options: seq<FormOption>, settings: AutoSelectOptions): (r: Outcome)
    ensures |options| == 0 || AnySelected(options) ==> r == NOTHING
    ensures r.result <==> r.effect.Clicked?
    ensures r.effect.ValueSet? == false
    ensures r.effect.Clicked? ==> r.effect.index < |options| && !AnySelected(options)
    ensures r.effect.Clicked? && r.effect.index != 0 ==> settings.enablePositiveSelect
    ensures r.effect.Clicked? && settings.enablePositiveSelect && IsPositiveOption(options[r.effect.index].text) ==>
      forall j :: 0 <= j < r.effect.index ==> !IsPositiveOption(options[j].text)
    ensures r.effect.Clicked? && !IsPositiveOption(options[r.effect.index].text) ==>
      r.effect.index == 0 && settings.enableFallback
      && (!settings.enablePositiveSelect || forall j :: 0 <= j < |options| ==> !IsPositiveOption(options[j].text))
  {
    if |options| == 0 then NOTHING
    else if AnySelected(options) then NOTHING
    else
      var positive := if settings.enablePositiveSelect then FindPositiveOption(options) else None;
      if positive.Some? then ClickOption(options, positive.value)
      else if settings.enableFallback && |options| > 0 then ClickOption(options, 0)
      else NOTHING
  }

  /** With no option checked, the rules pick exactly: the first positive
      option when that rule is on and one exists, else option 0 when the
      fallback is on, else nothing. */
  lemma FillSelectionFieldChoice(options: seq<FormOption>, settings: AutoSelectOptions)
    requires |options| > 0 && !AnySelected(options)
    ensures var r := FillSelectionField(options, settings);
      && (settings.enablePositiveSelect && FindPositiveOption(options).Some? ==>
            r == Outcome(true, Clicked(FindPositiveOption(options).value)))
      && ((!settings.enablePositiveSelect || FindPositiveOption(options).None?) && settings.enableFallback ==>
            r == Outcome(true, Clicked(0)))
      && ((!settings.enablePositiveSelect || FindPositiveOption(options).None?) && !settings.enableFallback ==>
            r == NOTHING)
  {
  }

  // ---------------------------------------------------------------------------
  // Any field

  /** `fillFormField`: text inputs are written, radio and checkbox questions
      click the option matching a non-empty value or else follow the
      selection rules, and drop-downs are left alone. */
  function FillFormField(field: ParsedFormField, value: string, settings: AutoSelectOptions): (r: Outcome)
    ensures field.fieldType.Select? ==> r == NOTHING
    ensures field.fieldType in {Text, TextArea} ==> r == FillTextField(field.element, value)
    ensures field.fieldType in {Radio, Checkbox} ==>
      var options := field.element.options;
      var m := if value != "" then FindMatchingOption(options, value) else None;
      && (m.Some? ==> r == ClickOption(options, m.value))
      && (m.None? ==> r == FillSelectionField(options, settings))
    ensures r.effect.Clicked? ==> field.fieldType in {Radio, Checkbox} && r.effect.index < |field.element.options|
  {
    match field.fieldType
    case Text => FillTextField(field.element, value)
    case TextArea => FillTextField(field.element, value)
    case Radio => FillChoice(field.element.options, value, settings)
    case Checkbox => FillChoice(field.element.options, value, settings)
    case Select => NOTHING
  }

  /** The radio and checkbox branch of `fillFormField`. */
  function FillChoice(options: seq<FormOption>, value: string, settings: AutoSelectOptions): (r: Outcome)
    ensures r.effect.Clicked? ==> r.effect.index < |options|
    ensures r.effect.ValueSet? == false
  {
    if value != "" && FindMatchingOption(options, value).Some? then
      ClickOption(options, FindMatchingOption(options, value).value)
    else FillSelectionField(options, settings)
  }

  /** The field after `fillFormField` has changed it. */
  function Filled(field: ParsedFormField, value: string, settings: AutoSelectOptions): (f: ParsedFormField)
    ensures f.fieldType == field.fieldType
  {
    field.(element := After(field.fieldType, field.element, FillFormField(field, value, settings).effect))
  }

  /** Filling a field a second time with the same value and settings changes
      nothing: the written text is not overwritten, and the clicked option is
      checked (and still the one the rules pick). */
  lemma FillFormFieldSettles(field: ParsedFormField, value: string, settings: AutoSelectOptions)
    ensures var f := Filled(field, value, settings);
      Filled(f, value, settings) == f
  {
    var f := Filled(field, value, settings);
    match field.fieldType
    case Text =>
    case TextArea =>
    case Select =>
    case Radio =>
      ChoiceSettles(Radio, field.element, value, settings);
    case Checkbox =>
      ChoiceSettles(Checkbox, field.element, value, settings);
  }

  lemma ChoiceSettles(fieldType: FormFieldType, element: FieldElement, value: string, settings: AutoSelectOptions)
    requires fieldType in {Radio, Checkbox}
    ensures var e := After(fieldType, element, FillChoice(element.options, value, settings).effect);
      FillChoice(e.options, value, settings).effect == Untouched
  {
    var m := FindMatchingOption(element.options, value);
    var r := FillChoice(element.options, value, settings);
    var e := After(fieldType, element, r.effect);
    SameTextsSameFind(element.options, e.options, t => MatchesValue(t, value), 0);
    assert FindMatchingOption(e.options, value) == m;
    if value != "" && m.Some? {
      assert r == ClickOption(element.options, m.value);
      assert e.options[m.value].selected;
    } else {
      assert r == FillSelectionField(element.options, settings);
      FillSelectionFieldOnce(fieldType, element, settings);
    }
  }

  /** Which option is found depends on the texts alone. */
  lemma {:induction false} SameTextsSameFind(a: seq<FormOption>, b: seq<FormOption>, p: string -> bool, k: nat)
    requires |a| == |b| && k <= |a| && forall j :: 0 <= j < |a| ==> a[j].text == b[j].text
    ensures FindFrom(a, p, k) == FindFrom(b, p, k)
    decreases |a| - k
  {
    if k < |a| {
      SameTextsSameFind(a, b, p, k + 1);
    }
  }

  /** A second selection fill does nothing. */
  lemma FillSelectionFieldOnce(fieldType: FormFieldType, element: FieldElement, settings: AutoSelectOptions)
    ensures var e := After(fieldType, element, FillSelectionField(element.options, settings).effect);
      FillSelectionField(e.options, settings) == NOTHING
  {
    var r := FillSelectionField(element.options, settings);
    var e := After(fieldType, element, r.effect);
    if r.effect.Clicked? {
      assert e.options[r.effect.index].selected;
    }
  }
}
