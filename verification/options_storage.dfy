/**
  The persisted user preferences (options-storage.ts): the user's saved field
  values, the automatic-selection switches, the lookup helpers over them and
  the pure `currentState => newState` updates the storage layer applies.
  The asynchronous storage itself is not modelled; each update is the state
  transformer it hands to `storage.set`.
*/
module OptionsStorage {
  import opened Optional

  datatype UserField = UserField(id: string, displayLabel: string, value: string, placeholder: string)

  datatype AutoOption = AutoOption(id: string, title: string, description: string, enabled: bool)

  datatype OptionsState = OptionsState(userFields: seq<UserField>, autoOptions: seq<AutoOption>)

  /** The two switches the selection filler reads (`getAutoSelectOptions`). */
  datatype AutoSelectOptions = AutoSelectOptions(enablePositiveSelect: bool, enableFallback: bool)

  // USER_FIELD_IDS
  const TELEGRAM: string := "telegram"
  const TWITTER: string := "twitter"
  const DISCORD: string := "discord"
  const EMAIL: string := "email"
  const YOUTUBE: string := "youtube"
  const PHONE: string := "phone"
  const EVM_WALLET: string := "evm_wallet"
  const SOLANA_WALLET: string := "solana_wallet"
  const ADDRESS: string := "address"

  // AUTO_OPTION_IDS
  const POSITIVE_AUTO_SELECT: string := "positiveAutoSelect"
  const FALLBACK_AUTO_SELECT: string := "fallbackAutoSelect"
  const FLOATING_BUTTON: string := "floatingButton"
  const MATH_AUTO_ANSWER: string := "mathAutoAnswer"

  /** Index of the first option carrying `optionId` (`Array.prototype.find`). */
  function FindOption(autoOptions: seq<AutoOption>, optionId: string): (r: Option<nat>)
    ensures r.None? <==> forall i :: 0 <= i < |autoOptions| ==> autoOptions[i].id != optionId
    ensures r.Some? ==> r.value < |autoOptions| && autoOptions[r.value].id == optionId
    ensures r.Some? ==> forall j :: 0 <= j < r.value ==> autoOptions[j].id != optionId
  {
    if |autoOptions| == 0 then None
    else if autoOptions[0].id == optionId then Some(0)
    else match FindOption(autoOptions[1..], optionId)
      case None => None
      case Some(k) => Some(k + 1)
  }

  /** `isOptionEnabled`: the `enabled` flag of the first option with that id,
      false when there is none. */
  function IsOptionEnabled(autoOptions: seq<AutoOption>, optionId: string): (r: bool)
    ensures r <==> exists i :: 0 <= i < |autoOptions| && autoOptions[i].id == optionId && autoOptions[i].enabled
                                 && forall j :: 0 <= j < i ==> autoOptions[j].id != optionId
  {
    match FindOption(autoOptions, optionId)
    case None => false
    case Some(i) => autoOptions[i].enabled
  }

  function IsPositiveAutoSelectEnabled(autoOptions: seq<AutoOption>): bool {
    IsOptionEnabled(autoOptions, POSITIVE_AUTO_SELECT)
  }

  function IsFallbackAutoSelectEnabled(autoOptions: seq<AutoOption>): bool {
    IsOptionEnabled(autoOptions, FALLBACK_AUTO_SELECT)
  }

  function IsFloatingButtonEnabled(autoOptions: seq<AutoOption>): bool {
    IsOptionEnabled(autoOptions, FLOATING_BUTTON)
  }

  function IsMathAutoAnswerEnabled(autoOptions: seq<AutoOption>): bool {
    IsOptionEnabled(autoOptions, MATH_AUTO_ANSWER)
  }

  /** `getAutoSelectOptions`: the two selection switches read from the options. */
  function GetAutoSelectOptions(autoOptions: seq<AutoOption>): (r: AutoSelectOptions)
    ensures r.enablePositiveSelect == IsOptionEnabled(autoOptions, POSITIVE_AUTO_SELECT)
    ensures r.enableFallback == IsOptionEnabled(autoOptions, FALLBACK_AUTO_SELECT)
  {
    AutoSelectOptions(IsPositiveAutoSelectEnabled(autoOptions), IsFallbackAutoSelectEnabled(autoOptions))
  }

  const DEFAULT_USER_FIELDS: seq<UserField> := [
    UserField(TELEGRAM, "Telegram", "", "@username"),
    UserField(TWITTER, "Twitter", "", "@username"),
    UserField(DISCORD, "Discord", "", "@username"),
    UserField(EMAIL, "Email", "", "email@example.com"),
    UserField(EVM_WALLET, "EVM Wallet", "", "0x..."),
    UserField(SOLANA_WALLET, "Solana Wallet", "", "solana wallet address"),
    UserField(YOUTUBE, "YouTube Channel", "", "@channelname"),
    UserField(PHONE, "Phone Number", "", "010-1234-5678"),
    UserField(ADDRESS, "Home Address", "", "123 Main St, City, State 12345")
  ]

  const DEFAULT_AUTO_OPTIONS: seq<AutoOption> := [
    AutoOption(POSITIVE_AUTO_SELECT, "긍정 응답 자동 선택",
               "긍정적인 선택지를 자동으로 선택합니다. (예: 네, Yes, OK 등)", true),
    AutoOption(FALLBACK_AUTO_SELECT, "기본 응답 자동 선택",
               "필수 항목이 비어있을 때 첫번째 선택지를 사용합니다.", false),
    AutoOption(FLOATING_BUTTON, "Floating 버튼 표시",
               "페이지 우측 하단에 플로팅 버튼을 표시합니다.", true),
    AutoOption(MATH_AUTO_ANSWER, "봇 방지 수식 자동 계산",
               "수식 문제를 자동으로 계산하여 답변합니다. (예: 2 + 3 = ?)", true)
  ]

  const DEFAULT_OPTIONS_STATE: OptionsState := OptionsState(DEFAULT_USER_FIELDS, DEFAULT_AUTO_OPTIONS)

  /** Out of the box: positive answers are auto-selected, the first-option
      fallback is off, the floating button and the math auto-answer are on. */
  lemma DefaultSwitches()
    ensures GetAutoSelectOptions(DEFAULT_OPTIONS_STATE.autoOptions) == AutoSelectOptions(true, false)
    ensures IsFloatingButtonEnabled(DEFAULT_OPTIONS_STATE.autoOptions)
    ensures IsMathAutoAnswerEnabled(DEFAULT_OPTIONS_STATE.autoOptions)
  {
    var opts := DEFAULT_AUTO_OPTIONS;
    DefaultIds();
    EnabledAt(opts, POSITIVE_AUTO_SELECT, 0);
    EnabledAt(opts, FALLBACK_AUTO_SELECT, 1);
    EnabledAt(opts, FLOATING_BUTTON, 2);
    EnabledAt(opts, MATH_AUTO_ANSWER, 3);
  }

  /** The switch read for an id is the one of its first option. */
  lemma EnabledAt(autoOptions: seq<AutoOption>, optionId: string, k: int)
    requires 0 <= k < |autoOptions| && autoOptions[k].id == optionId
    requires forall j :: 0 <= j < k ==> autoOptions[j].id != optionId
    ensures IsOptionEnabled(autoOptions, optionId) == autoOptions[k].enabled
  {
  }

  /** Where each switch sits in the default list. */
  lemma DefaultIds()
    ensures var opts := DEFAULT_AUTO_OPTIONS;
      && |opts| >= 4
      && opts[0].id == POSITIVE_AUTO_SELECT
      && opts[0].id != FALLBACK_AUTO_SELECT && opts[1].id == FALLBACK_AUTO_SELECT
      && opts[0].id != FLOATING_BUTTON && opts[1].id != FLOATING_BUTTON && opts[2].id == FLOATING_BUTTON
      && opts[0].id != MATH_AUTO_ANSWER && opts[1].id != MATH_AUTO_ANSWER && opts[2].id != MATH_AUTO_ANSWER
      && opts[3].id == MATH_AUTO_ANSWER
  {
  }

  /** `updateUserField(id, value)`: every entry with that id gets the new value;
      nothing else changes. */
  function UpdateUserField(state: OptionsState, id: string, value: string): (r: OptionsState)
    ensures r.autoOptions == state.autoOptions
    ensures |r.userFields| == |state.userFields|
    ensures forall i :: 0 <= i < |state.userFields| ==>
      var before, after := state.userFields[i], r.userFields[i];
      && after.id == before.id && after.displayLabel == before.displayLabel && after.placeholder == before.placeholder
      && after.value == (if before.id == id then value else before.value)
  {
    var fields := state.userFields;
    state.(userFields := seq(|fields|, i requires 0 <= i < |fields| =>
                               if fields[i].id == id then fields[i].(value := value) else fields[i]))
  }

  /** `clearUserField(id)`: every entry with that id gets the empty value. */
  function ClearUserField(state: OptionsState, id: string): (r: OptionsState)
    ensures r.autoOptions == state.autoOptions
    ensures |r.userFields| == |state.userFields|
    ensures forall i :: 0 <= i < |state.userFields| && state.userFields[i].id != id ==>
      r.userFields[i] == state.userFields[i]
    ensures forall i :: 0 <= i < |state.userFields| && state.userFields[i].id == id ==>
      r.userFields[i].value == ""
  {
    var fields := state.userFields;
    state.(userFields := seq(|fields|, i requires 0 <= i < |fields| =>
                               if fields[i].id == id then fields[i].(value := "") else fields[i]))
  }

  /** Clearing a field is updating it to the empty string. */
  lemma ClearIsUpdateWithEmpty(state: OptionsState, id: string)
    ensures ClearUserField(state, id) == UpdateUserField(state, id, "")
  {
  }

  /** Updating the same field twice keeps only the second value; updating with
      the same value twice is the same as doing it once. */
  lemma UpdateUserFieldLastWins(state: OptionsState, id: string, v1: string, v2: string)
    ensures UpdateUserField(UpdateUserField(state, id, v1), id, v2) == UpdateUserField(state, id, v2)
  {
  }

  /** `toggleAutoOption(id)`: every option with that id has `enabled` negated;
      nothing else changes. */
  function ToggleAutoOption(state: OptionsState, id: string): (r: OptionsState)
    ensures r.userFields == state.userFields
    ensures |r.autoOptions| == |state.autoOptions|
    ensures forall i :: 0 <= i < |state.autoOptions| ==>
      var before, after := state.autoOptions[i], r.autoOptions[i];
      && after.id == before.id && after.title == before.title && after.description == before.description
      && after.enabled == (if before.id == id then !before.enabled else before.enabled)
  {
    var opts := state.autoOptions;
    state.(autoOptions := seq(|opts|, i requires 0 <= i < |opts| =>
                                if opts[i].id == id then opts[i].(enabled := !opts[i].enabled) else opts[i]))
  }

  /** `setAutoOption(id, enabled)`: every option with that id gets `enabled`;
      nothing else changes. */
  function SetAutoOption(state: OptionsState, id: string, enabled: bool): (r: OptionsState)
    ensures r.userFields == state.userFields
    ensures |r.autoOptions| == |state.autoOptions|
    ensures forall i :: 0 <= i < |state.autoOptions| ==>
      var before, after := state.autoOptions[i], r.autoOptions[i];
      && after.id == before.id && after.title == before.title && after.description == before.description
      && after.enabled == (if before.id == id then enabled else before.enabled)
    ensures (forall i :: 0 <= i < |state.autoOptions| ==> state.autoOptions[i].id != id) ==> r == state
  {
    var opts := state.autoOptions;
    var r := state.(autoOptions := seq(|opts|, i requires 0 <= i < |opts| =>
                                         if opts[i].id == id then opts[i].(enabled := enabled) else opts[i]));
    assert (forall i :: 0 <= i < |opts| ==> opts[i].id != id) ==> r.autoOptions == opts;
    r
  }

  /** Toggling an option twice restores the original state. */
  lemma ToggleInvolution(state: OptionsState, id: string)
    ensures ToggleAutoOption(ToggleAutoOption(state, id), id) == state
  {
    var once := ToggleAutoOption(state, id);
    var twice := ToggleAutoOption(once, id);
    assert twice.autoOptions == state.autoOptions;
  }

  /** Setting an option is idempotent. */
  lemma SetAutoOptionIdempotent(state: OptionsState, id: string, enabled: bool)
    ensures SetAutoOption(SetAutoOption(state, id, enabled), id, enabled) == SetAutoOption(state, id, enabled)
  {
  }

  /** After `setAutoOption(id, b)` on a state that has option `id`, the lookup
      reports `b`; every other option reads as before. */
  lemma {:induction false} SetThenLookup(state: OptionsState, id: string, enabled: bool, other: string)
    requires exists i :: 0 <= i < |state.autoOptions| && state.autoOptions[i].id == id
    ensures IsOptionEnabled(SetAutoOption(state, id, enabled).autoOptions, id) == enabled
    ensures other != id ==>
      IsOptionEnabled(SetAutoOption(state, id, enabled).autoOptions, other) == IsOptionEnabled(state.autoOptions, other)
  {
    var after := SetAutoOption(state, id, enabled).autoOptions;
    SameIdsSameFind(state.autoOptions, after, id);
    SameIdsSameFind(state.autoOptions, after, other);
  }

  /** After `toggleAutoOption(id)` on a state that has option `id`, the lookup
      of `id` is negated; every other option reads as before. */
  lemma {:induction false} ToggleThenLookup(state: OptionsState, id: string, other: string)
    requires exists i :: 0 <= i < |state.autoOptions| && state.autoOptions[i].id == id
    ensures IsOptionEnabled(ToggleAutoOption(state, id).autoOptions, id) == !IsOptionEnabled(state.autoOptions, id)
    ensures other != id ==>
      IsOptionEnabled(ToggleAutoOption(state, id).autoOptions, other) == IsOptionEnabled(state.autoOptions, other)
  {
    var after := ToggleAutoOption(state, id).autoOptions;
    SameIdsSameFind(state.autoOptions, after, id);
    SameIdsSameFind(state.autoOptions, after, other);
  }

  /** Two option lists with the same ids position by position find the same index. */
  lemma {:induction false} SameIdsSameFind(a: seq<AutoOption>, b: seq<AutoOption>, id: string)
    requires |a| == |b|
    requires forall i :: 0 <= i < |a| ==> a[i].id == b[i].id
    ensures FindOption(a, id) == FindOption(b, id)
  {
    if |a| > 0 && a[0].id != id {
      SameIdsSameFind(a[1..], b[1..], id);
    }
  }
}
