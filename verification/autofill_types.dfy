/**
  The data contracts shared by the matcher and the filler (types.ts), with the
  document element reduced to what the filler observes of it.
*/
module AutofillTypes {

  datatype FormFieldType = Text | TextArea | Radio | Checkbox | Select

  /** One choice of a radio or checkbox question: its trimmed text and whether
      it is currently checked (`FormOption`, google-forms-parser.ts). */
  datatype FormOption = FormOption(text: string, selected: bool)

  /** What the filler can see of a field's element: whether it is a text input
      or text area, its current text value, and the choices it contains. */
  datatype FieldElement = FieldElement(isTextControl: bool, currentText: string, options: seq<FormOption>)

  /** `ParsedFormField`. */
  datatype ParsedFormField = ParsedFormField(
    element: FieldElement,
    labelText: string,
    placeholder: string,
    fieldType: FormFieldType,
    required: bool,
    currentValue: string,
    elementId: string)

  datatype MatchType = Exact | Partial | Fuzzy

  /** `FieldMatchResult`: lower scores mean more confident matches. */
  datatype FieldMatchResult = FieldMatchResult(
    userFieldId: string,
    score: real,
    matchType: MatchType,
    matchedKeyword: string)
}
