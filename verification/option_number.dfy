/**
  `extractNumberFromOption` of the math solver (math-solver.ts): the number a
  multiple-choice option stands for. The trimmed text is searched for a decimal
  literal first, then for a Korean number word occurring anywhere in it, then
  for an English number word standing as a whole word in its lower-cased form.
*/
module OptionNumber {
  import opened Optional
  import opened JsString
  import opened Numerals
  import Constants

  predicate NoDigit(s: string) {
    forall i :: 0 <= i < |s| ==> !IsAsciiDigit(s[i])
  }

  /** The index of the first ASCII digit of `s`, or `|s|` when there is none. */
  function FirstDigit(s: string): (i: nat)
    ensures i <= |s|
    ensures forall j :: 0 <= j < i ==> !IsAsciiDigit(s[j])
    ensures i < |s| ==> IsAsciiDigit(s[i])
  {
    if |s| == 0 || IsAsciiDigit(s[0]) then 0 else 1 + FirstDigit(s[1..])
  }

  /** The shape of a match of `/\d+(\.\d+)?/`: a digit run, optionally followed
      by a point and a second digit run. */
  predicate IsDecimalMatch(m: string) {
    var k := DigitPrefix(m);
    && k > 0
    && (k == |m| || (m[k] == '.' && k + 1 < |m| && AllDigits(m[k + 1..])))
  }

  /** The text `/\d+(\.\d+)?/` matches when it starts at the digit `s[i]`: the
      pattern is greedy, so neither run can be extended. */
  function DecimalMatchAt(s: string, i: int): (m: string)
    requires 0 <= i < |s| && IsAsciiDigit(s[i])
    ensures i + |m| <= |s| && m == s[i..i + |m|]
    ensures IsDecimalMatch(m)
    ensures i + |m| < |s| ==> !IsAsciiDigit(s[i + |m|])
    ensures i + |m| + 1 < |s| && AllDigits(m) ==> !(s[i + |m|] == '.' && IsAsciiDigit(s[i + |m| + 1]))
  {
    s[i..i + DecimalMatchLength(s, i)]
  }

  /** The length of the match `DecimalMatchAt` takes. */
  function DecimalMatchLength(s: string, i: int): (n: nat)
    requires 0 <= i < |s| && IsAsciiDigit(s[i])
    ensures i + n <= |s| && IsDecimalMatch(s[i..i + n])
    ensures i + n < |s| ==> !IsAsciiDigit(s[i + n])
    ensures i + n + 1 < |s| && AllDigits(s[i..i + n]) ==> !(s[i + n] == '.' && IsAsciiDigit(s[i + n + 1]))
  {
    var k := DigitPrefix(s[i..]);
    if i + k + 1 < |s| && s[i + k] == '.' && IsAsciiDigit(s[i + k + 1]) then
      var f := DigitPrefix(s[i + k + 1..]);
      FractionalMatch(s, i, k, f, k + 1 + f);
      k + 1 + f
    else
      WholeMatch(s, i, k);
      k
  }

  /** The digit run at `i`, when no `.digit` follows it, is a match. */
  lemma WholeMatch(s: string, i: int, k: nat)
    requires 0 <= i < |s| && IsAsciiDigit(s[i]) && k == DigitPrefix(s[i..])
    requires !(i + k + 1 < |s| && s[i + k] == '.' && IsAsciiDigit(s[i + k + 1]))
    ensures i + k <= |s| && IsDecimalMatch(s[i..i + k])
    ensures i + k < |s| ==> !IsAsciiDigit(s[i + k])
  {
    var m := s[i..i + k];
    assert m == s[i..][..k];
    DigitPrefixOfDigits(m, []);
    assert m == m + [];
  }

  /** The digit run at `i`, a point and the digit run after it are a match
      of length `n`. */
  lemma FractionalMatch(s: string, i: int, k: nat, f: nat, n: nat)
    requires 0 <= i < |s| && IsAsciiDigit(s[i]) && k == DigitPrefix(s[i..])
    requires i + k + 1 < |s| && s[i + k] == '.' && IsAsciiDigit(s[i + k + 1])
    requires f == DigitPrefix(s[i + k + 1..]) && n == k + 1 + f
    ensures i + n <= |s| && IsDecimalMatch(s[i..i + n])
    ensures i + n < |s| ==> !IsAsciiDigit(s[i + n])
    ensures !AllDigits(s[i..i + n])
  {
    var t := s[i..];
    assert t[k + 1..] == s[i + k + 1..];
    FractionalRuns(t, k, f);
    assert s[i..i + n] == t[..n];
    assert i + n < |s| ==> s[i + n] == t[n];
  }

  /** The same for the match at the start of `t`. */
  lemma FractionalRuns(t: string, k: nat, f: nat)
    requires 0 < |t| && IsAsciiDigit(t[0]) && k == DigitPrefix(t)
    requires k + 1 < |t| && t[k] == '.' && IsAsciiDigit(t[k + 1])
    requires f == DigitPrefix(t[k + 1..])
    ensures k + 1 + f <= |t| && IsDecimalMatch(t[..k + 1 + f]) && !AllDigits(t[..k + 1 + f])
    ensures k + 1 + f < |t| ==> !IsAsciiDigit(t[k + 1 + f])
  {
    var a, b := t[..k], t[k + 1..][..f];
    assert t[..k + 1 + f] == a + ['.'] + b;
    DecimalShape(a, b);
    assert k + 1 + f < |t| ==> t[k + 1 + f] == t[k + 1..][f];
  }

  /** Two digit runs around a point make a match that is not all digits. */
  lemma DecimalShape(a: string, b: string)
    requires |a| > 0 && AllDigits(a) && |b| > 0 && AllDigits(b)
    ensures IsDecimalMatch(a + ['.'] + b) && !AllDigits(a + ['.'] + b)
  {
    var m := a + ['.'] + b;
    assert m == a + (['.'] + b);
    DigitPrefixOfDigits(a, ['.'] + b);
    assert m[|a|] == '.';
    assert m[|a| + 1..] == b;
  }

  /** `Number` never reads a `/\d+(\.\d+)?/` match as NaN. */
  lemma DecimalMatchParses(m: string)
    requires IsDecimalMatch(m)
    ensures ParseNumber(m).Some?
  {
    var k := DigitPrefix(m);
    assert !IsAsciiDigit(m[0]) ==> k == 0;
  }

  /** Step 1: the value of the first decimal literal in `s`. */
  function FirstDecimal(s: string): (r: Option<real>)
    ensures r.None? <==> NoDigit(s)
    ensures r.Some? ==> r == ParseNumber(DecimalMatchAt(s, FirstDigit(s)))
  {
    var i := FirstDigit(s);
    if i == |s| then None
    else
      DecimalMatchParses(DecimalMatchAt(s, i));
      ParseNumber(DecimalMatchAt(s, i))
  }

  /** `new RegExp('\\b' + w + '\\b', 'i')` matches `t` at `p`, for a word `w`
      that starts and ends with a word character. */
  predicate WholeWordAt(t: string, w: string, p: int) {
    && OccursAt(t, w, p)
    && (p == 0 || !IsWordChar(t[p - 1]))
    && (p + |w| == |t| || !IsWordChar(t[p + |w|]))
  }

  predicate HasWholeWord(t: string, w: string) {
    exists p | 0 <= p <= |t| - |w| :: WholeWordAt(t, w, p)
  }

  /** How a table key is searched for: anywhere, or as a whole word. */
  predicate KeyFound(text: string, key: string, wholeWord: bool) {
    if wholeWord then HasWholeWord(text, key) else Includes(text, key)
  }

  /** `table[i]` is the first row whose key is found in `text`. */
  predicate IsFirstFoundAt(table: NumeralTable, text: string, wholeWord: bool, i: int) {
    && 0 <= i < |table|
    && KeyFound(text, table[i].0, wholeWord)
    && forall j :: 0 <= j < i ==> !KeyFound(text, table[j].0, wholeWord)
  }

  /** The `for ... of Object.entries(table)` loop: the value of the first row,
      in table order, whose key is found in `text`. */
  function FirstFound(table: NumeralTable, text: string, wholeWord: bool): (r: Option<int>)
    ensures r.None? <==> forall i :: 0 <= i < |table| ==> !KeyFound(text, table[i].0, wholeWord)
    ensures r.Some? ==> exists i :: IsFirstFoundAt(table, text, wholeWord, i) && r.value == table[i].1
    ensures forall i :: IsFirstFoundAt(table, text, wholeWord, i) ==> r == Some(table[i].1)
  {
    if |table| == 0 then None
    else if KeyFound(text, table[0].0, wholeWord) then
      assert IsFirstFoundAt(table, text, wholeWord, 0);
      Some(table[0].1)
    else
      var r := FirstFound(table[1..], text, wholeWord);
      assert forall i :: 1 <= i < |table| ==> table[i] == table[1..][i - 1];
      assert forall i :: IsFirstFoundAt(table, text, wholeWord, i) ==> i > 0 && IsFirstFoundAt(table[1..], text, wholeWord, i - 1);
      if r.Some? then
        var i :| IsFirstFoundAt(table[1..], text, wholeWord, i) && r.value == table[1..][i].1;
        assert IsFirstFoundAt(table, text, wholeWord, i + 1);
        r
      else
        r
  }

  /** The first row found is the one `FirstFound` returns. */
  lemma FirstFoundAt(table: NumeralTable, text: string, wholeWord: bool, i: int)
    requires IsFirstFoundAt(table, text, wholeWord, i)
    ensures FirstFound(table, text, wholeWord) == Some(table[i].1)
  {
    var r := FirstFound(table, text, wholeWord);
    var i' :| IsFirstFoundAt(table, text, wholeWord, i') && r.value == table[i'].1;
    assert !(i' < i) && !(i < i');
  }

  /** `extractNumberFromOption`, with the Korean table it scans as a
      parameter: a decimal literal first, then the first Korean key in table
      order that occurs in the trimmed text, then the first English word in
      table order that stands as a whole word in the lower-cased text. */
  function ExtractWith(korean: NumeralTable, text: string): (r: Option<real>)
    ensures var s := Trim(text);
      r.None? <==>
        && NoDigit(s)
        && (forall i :: 0 <= i < |korean| ==> !Includes(s, korean[i].0))
        && (forall i :: 0 <= i < |ENGLISH_NUMBER_MAP| ==> !HasWholeWord(ToLowerCase(s), ENGLISH_NUMBER_MAP[i].0))
    ensures var s := Trim(text);
      !NoDigit(s) ==> r == FirstDecimal(s)
    ensures var s := Trim(text);
      NoDigit(s) && r.Some? ==>
        || (exists i :: IsFirstFoundAt(korean, s, false, i) && r.value == korean[i].1 as real)
        || (exists i :: IsFirstFoundAt(ENGLISH_NUMBER_MAP, ToLowerCase(s), true, i) && r.value == ENGLISH_NUMBER_MAP[i].1 as real)
    ensures forall i :: NoDigit(Trim(text)) && IsFirstFoundAt(korean, Trim(text), false, i) ==>
      r == Some(korean[i].1 as real)
    ensures forall i ::
      && NoDigit(Trim(text))
      && (forall j :: 0 <= j < |korean| ==> !Includes(Trim(text), korean[j].0))
      && IsFirstFoundAt(ENGLISH_NUMBER_MAP, ToLowerCase(Trim(text)), true, i)
      ==> r == Some(ENGLISH_NUMBER_MAP[i].1 as real)
  {
    var s := Trim(text);
    match FirstDecimal(s)
    case Some(v) => Some(v)
    case None =>
      match FirstFound(korean, s, false)
      case Some(n) => Some(n as real)
      case None =>
        match FirstFound(ENGLISH_NUMBER_MAP, ToLowerCase(s), true)
        case Some(n) => Some(n as real)
        case None => None
  }

  /** What a number word of either table stands for: a whole number from 0
      to 20. */
  predicate IsTableNumber(v: real) {
    v.Floor as real == v && 0.0 <= v <= 20.0
  }

  /** Every row of the three tables holds a number from 0 to 20. */
  lemma TablesInRange()
    ensures forall i :: 0 <= i < |KOREAN_NUMBER_MAP| ==> 0 <= KOREAN_NUMBER_MAP[i].1 <= 20
    ensures forall i :: 0 <= i < |KOREAN_SCAN_ORDER| ==> 0 <= KOREAN_SCAN_ORDER[i].1 <= 20
    ensures forall i :: 0 <= i < |ENGLISH_NUMBER_MAP| ==> 0 <= ENGLISH_NUMBER_MAP[i].1 <= 20
  {
  }

  /** `extractNumberFromOption` as written: a digit in the text decides;
      otherwise the first Korean key in declaration order that occurs in the
      text; only when none occurs, the first English whole word. */
  function ExtractNumberFromOptionAsWritten(text: string): (r: Option<real>)
    ensures !NoDigit(Trim(text)) ==> r == FirstDecimal(Trim(text))
    ensures forall i :: NoDigit(Trim(text)) && IsFirstFoundAt(KOREAN_NUMBER_MAP, Trim(text), false, i) ==>
      r == Some(KOREAN_NUMBER_MAP[i].1 as real)
    ensures forall i ::
      && NoDigit(Trim(text))
      && (forall j :: 0 <= j < |KOREAN_NUMBER_MAP| ==> !Includes(Trim(text), KOREAN_NUMBER_MAP[j].0))
      && IsFirstFoundAt(ENGLISH_NUMBER_MAP, ToLowerCase(Trim(text)), true, i)
      ==> r == Some(ENGLISH_NUMBER_MAP[i].1 as real)
    ensures r.None? <==>
      && NoDigit(Trim(text))
      && (forall i :: 0 <= i < |KOREAN_NUMBER_MAP| ==> !Includes(Trim(text), KOREAN_NUMBER_MAP[i].0))
      && (forall i :: 0 <= i < |ENGLISH_NUMBER_MAP| ==> !HasWholeWord(ToLowerCase(Trim(text)), ENGLISH_NUMBER_MAP[i].0))
    ensures NoDigit(Trim(text)) && r.Some? ==> IsTableNumber(r.value)
  {
    TablesInRange();
    ExtractWithInRange(KOREAN_NUMBER_MAP, text);
    ExtractWith(KOREAN_NUMBER_MAP, text)
  }

  /** "일곱" (seven) contains the earlier key "일" (one), so the scan in
      declaration order reads it as 1. */
  lemma SevenReadsAsOne()
    ensures ExtractNumberFromOptionAsWritten("일곱") == Some(1.0)
  {
    var w := "일곱";
    KoreanWordsPlain(7, 1);
    ConvertPlainWord(w);
    SevenScan();
  }

  /** The declaration-order scan of "일곱" stops at row 2, "일". */
  lemma SevenScan()
    ensures FirstFound(KOREAN_NUMBER_MAP, "일곱", false) == Some(1)
  {
    var w := "일곱";
    assert w == ['일', '곱'];
    assert OccursAt(w, KOREAN_NUMBER_MAP[2].0, 0);
    forall j | 0 <= j < 2
      ensures !Includes(w, KOREAN_NUMBER_MAP[j].0)
    {
      IncludesOneChar(w, KOREAN_NUMBER_MAP[j].0);
    }
    assert IsFirstFoundAt(KOREAN_NUMBER_MAP, w, false, 2);
    FirstFoundAt(KOREAN_NUMBER_MAP, w, false, 2);
  }

  /** Korean words are searched before English ones: "일 two" holds both
      one (일) and two, and reads as 1. */
  lemma KoreanBeforeEnglish()
    ensures ExtractNumberFromOptionAsWritten("일 two") == Some(1.0)
  {
    var w := "일 two";
    assert w == ['일', ' ', 't', 'w', 'o'];
    TrimKeepsEnds(w);
    assert NoDigit(w);
    assert OccursAt(w, KOREAN_NUMBER_MAP[2].0, 0);
    forall j | 0 <= j < 2
      ensures !Includes(w, KOREAN_NUMBER_MAP[j].0)
    {
      IncludesOneChar(w, KOREAN_NUMBER_MAP[j].0);
    }
    assert IsFirstFoundAt(KOREAN_NUMBER_MAP, w, false, 2);
  }

  /** A one-character key occurs exactly when its character does. */
  lemma IncludesOneChar(s: string, key: string)
    requires |key| == 1
    ensures Includes(s, key) <==> key[0] in s
  {
    if key[0] in s {
      var i :| 0 <= i < |s| && s[i] == key[0];
      assert OccursAt(s, key, i);
    }
    if Includes(s, key) {
      var i :| 0 <= i <= |s| - |key| && OccursAt(s, key, i);
      assert s[i] == key[0];
    }
  }

  /** A key as long as the text occurs in it only when it is the text. */
  lemma IncludesSameLength(s: string, key: string)
    requires |key| == |s|
    ensures Includes(s, key) <==> key == s
  {
    if key == s {
      assert OccursAt(s, key, 0);
    }
  }

  /** The Korean table scanned longest key first: the six two-syllable native
      words, then the one-syllable words in declaration order. */
  const KOREAN_SCAN_ORDER: NumeralTable := [
    ("하나", 1), ("다섯", 5), ("여섯", 6), ("일곱", 7), ("여덟", 8), ("아홉", 9),
    ("영", 0), ("공", 0), ("일", 1), ("이", 2), ("삼", 3), ("사", 4), ("오", 5), ("육", 6),
    ("칠", 7), ("팔", 8), ("구", 9), ("십", 10), ("둘", 2), ("셋", 3), ("넷", 4), ("열", 10)]

  /** The scan order holds the same rows as `KOREAN_NUMBER_MAP`. */
  lemma ScanOrderSameRows()
    ensures |KOREAN_SCAN_ORDER| == |KOREAN_NUMBER_MAP|
    ensures forall i :: 0 <= i < |KOREAN_NUMBER_MAP| ==> KOREAN_NUMBER_MAP[i] in KOREAN_SCAN_ORDER
    ensures forall i :: 0 <= i < |KOREAN_SCAN_ORDER| ==> KOREAN_SCAN_ORDER[i] in KOREAN_NUMBER_MAP
  {
  }

  /** Keys never grow along the scan order, and no key repeats. */
  lemma ScanOrderLongestFirst()
    ensures forall a, b :: 0 <= a < b < |KOREAN_SCAN_ORDER| ==> |KOREAN_SCAN_ORDER[a].0| >= |KOREAN_SCAN_ORDER[b].0|
    ensures Constants.NoDuplicates(Words(KOREAN_SCAN_ORDER))
  {
    DistinctByEnds(Words(KOREAN_SCAN_ORDER));
  }

  /** `extractNumberFromOption` with the Korean keys scanned longest first, so
      that a key is never shadowed by a shorter key it contains. */
  function ExtractNumberFromOption(text: string): (r: Option<real>)
    ensures r.None? <==> ExtractNumberFromOptionAsWritten(text).None?
    ensures !NoDigit(Trim(text)) ==> r == ExtractNumberFromOptionAsWritten(text)
    ensures (forall i :: 0 <= i < |KOREAN_NUMBER_MAP| ==> !Includes(Trim(text), KOREAN_NUMBER_MAP[i].0)) ==>
      r == ExtractNumberFromOptionAsWritten(text)
    ensures NoDigit(Trim(text)) && r.Some? ==> IsTableNumber(r.value)
  {
    SameKeysFound(Trim(text));
    ExtractWithSameKeys(KOREAN_SCAN_ORDER, KOREAN_NUMBER_MAP, text);
    TablesInRange();
    ExtractWithInRange(KOREAN_SCAN_ORDER, text);
    ExtractWith(KOREAN_SCAN_ORDER, text)
  }

  /** Two Korean tables with the same keys find a number in the same texts,
      and read the same number when a digit or an English word decides. */
  lemma ExtractWithSameKeys(a: NumeralTable, b: NumeralTable, text: string)
    requires (forall i :: 0 <= i < |a| ==> !Includes(Trim(text), a[i].0)) <==>
      (forall i :: 0 <= i < |b| ==> !Includes(Trim(text), b[i].0))
    ensures ExtractWith(a, text).None? <==> ExtractWith(b, text).None?
    ensures !NoDigit(Trim(text)) ==> ExtractWith(a, text) == ExtractWith(b, text)
    ensures (forall i :: 0 <= i < |b| ==> !Includes(Trim(text), b[i].0)) ==> ExtractWith(a, text) == ExtractWith(b, text)
  {
    var s := Trim(text);
    if forall i :: 0 <= i < |b| ==> !Includes(s, b[i].0) {
      assert FirstFound(a, s, false).None?;
      assert FirstFound(b, s, false).None?;
    }
  }

  /** A number read from a word of tables holding 0 to 20 lies in that range. */
  lemma ExtractWithInRange(korean: NumeralTable, text: string)
    requires forall i :: 0 <= i < |korean| ==> 0 <= korean[i].1 <= 20
    requires forall i :: 0 <= i < |ENGLISH_NUMBER_MAP| ==> 0 <= ENGLISH_NUMBER_MAP[i].1 <= 20
    ensures var r := ExtractWith(korean, text); NoDigit(Trim(text)) && r.Some? ==> IsTableNumber(r.value)
  {
  }

  /** A key of `KOREAN_NUMBER_MAP` occurs in a text exactly when a key of the
      scan order does: the two tables hold the same rows. */
  lemma SameKeysFound(s: string)
    ensures (forall i :: 0 <= i < |KOREAN_NUMBER_MAP| ==> !Includes(s, KOREAN_NUMBER_MAP[i].0)) <==>
      (forall i :: 0 <= i < |KOREAN_SCAN_ORDER| ==> !Includes(s, KOREAN_SCAN_ORDER[i].0))
  {
    ScanOrderSameRows();
  }

  // ---------------------------------------------------------------------------
  // What the option reading recovers

  /** Scanning keys that never grow and never repeat, every key is found as
      itself: no shorter key it contains comes first. */
  lemma {:induction false} LongestFirstFindsItself(table: NumeralTable, i: int)
    requires forall a, b :: 0 <= a < b < |table| ==> |table[a].0| >= |table[b].0|
    requires Constants.NoDuplicates(Words(table))
    requires 0 <= i < |table|
    ensures FirstFound(table, table[i].0, false) == Some(table[i].1)
  {
    var w := table[i].0;
    assert OccursAt(w, w, 0);
    forall j | 0 <= j < i
      ensures !Includes(w, table[j].0)
    {
      if |table[j].0| == |w| {
        IncludesSameLength(w, table[j].0);
        assert Words(table)[j] != Words(table)[i];
      }
    }
    assert IsFirstFoundAt(table, w, false, i);
    FirstFoundAt(table, w, false, i);
  }

  /** In a text made only of word characters, a word stands as a whole word
      only when it is the whole text. */
  lemma WholeWordInWord(t: string, u: string)
    requires forall k :: 0 <= k < |t| ==> IsWordChar(t[k])
    ensures HasWholeWord(t, u) <==> u == t
  {
    if u == t {
      assert WholeWordAt(t, u, 0);
    }
    if HasWholeWord(t, u) {
      var p :| 0 <= p <= |t| - |u| && WholeWordAt(t, u, p);
      assert p == 0 && p + |u| == |t|;
    }
  }

  /** Every Korean key of the scan starts with a Hangul syllable. */
  lemma ScanKeysHangul()
    ensures forall i :: 0 <= i < |KOREAN_SCAN_ORDER| ==>
      |KOREAN_SCAN_ORDER[i].0| > 0 && IsHangulSyllable(KOREAN_SCAN_ORDER[i].0[0])
  {
  }

  /** A text without Hangul contains no Korean key. */
  lemma NoHangulNoKoreanKey(s: string)
    requires forall k :: 0 <= k < |s| ==> !IsHangulSyllable(s[k])
    ensures forall i :: 0 <= i < |KOREAN_SCAN_ORDER| ==> !Includes(s, KOREAN_SCAN_ORDER[i].0)
  {
    ScanKeysHangul();
  }

  /** A number written in digits, with no digit before it and neither a digit
      nor a point right after it, is the number read: "5번", "Option 3" and
      "3번째 선택" read as 5, 3 and 3. This holds for either Korean scan. */
  lemma DigitsReadFirst(korean: NumeralTable, p: string, n: nat, q: string)
    requires NoDigit(p)
    requires |q| > 0 ==> !IsAsciiDigit(q[0]) && q[0] != '.'
    requires |p| > 0 ==> !IsWhitespace(p[0])
    requires |q| > 0 ==> !IsWhitespace(q[|q| - 1])
    ensures ExtractWith(korean, p + NatToString(n) + q) == Some(n as real)
  {
    var d := NatToString(n);
    var s := p + d + q;
    assert s[|p|] == d[0];
    assert |q| == 0 ==> s[|s| - 1] == d[|d| - 1];
    TrimKeepsEnds(s);
    FirstDecimalOfDigits(p, n, q);
  }

  /** The first decimal literal of such a text is the number's digits. */
  lemma FirstDecimalOfDigits(p: string, n: nat, q: string)
    requires NoDigit(p)
    requires |q| > 0 ==> !IsAsciiDigit(q[0]) && q[0] != '.'
    ensures FirstDecimal(p + NatToString(n) + q) == Some(n as real)
  {
    var d := NatToString(n);
    var s := p + d + q;
    var i := FirstDigit(s);
    assert s[|p|] == d[0];
    assert forall j :: 0 <= j < |p| ==> s[j] == p[j];
    assert i == |p|;
    assert s[|p|..] == d + q;
    DigitPrefixOfDigits(d, q);
    assert DecimalMatchAt(s, i) == d;
    DigitsValueOfNatToString(n);
  }

  /** Each Korean word of `numberToKoreanVariants` reads back as its number
      under the longest-first scan. */
  lemma KoreanWordReadsBack(n: int, j: int)
    requires 0 <= n <= 10 && 0 <= j < 2
    ensures ExtractNumberFromOption(KOREAN_WORDS[n][j]) == Some(n as real)
  {
    var w := KOREAN_WORDS[n][j];
    KoreanWordsPlain(n, j);
    TrimNoWhitespace(w);
    assert NoDigit(w);
    KoreanRowOf(n, j);
    ScanOrderSameRows();
    var row := if j == 0 then (if n == 0 then 0 else n + 1) else (if n == 0 then 1 else n + 11);
    assert KOREAN_NUMBER_MAP[row] in KOREAN_SCAN_ORDER;
    var i :| 0 <= i < |KOREAN_SCAN_ORDER| && KOREAN_SCAN_ORDER[i] == (w, n);
    ScanOrderLongestFirst();
    LongestFirstFindsItself(KOREAN_SCAN_ORDER, i);
  }

  /** Each English word of `numberToKoreanVariants` reads back as its number. */
  lemma EnglishWordReadsBack(n: int)
    requires 0 <= n <= 20
    ensures ExtractNumberFromOption(ENGLISH_WORDS[n]) == Some(n as real)
  {
    var w := ENGLISH_WORDS[n];
    EnglishWordPlain(n);
    TrimNoWhitespace(w);
    ToLowerCaseNoUpper(w);
    assert NoDigit(w);
    NoHangulNoKoreanKey(w);
    EnglishRows();
    TablesHaveNoDuplicates();
    forall j | 0 <= j < |ENGLISH_NUMBER_MAP|
      ensures HasWholeWord(w, ENGLISH_NUMBER_MAP[j].0) <==> j == n
    {
      WholeWordInWord(w, ENGLISH_NUMBER_MAP[j].0);
      assert Words(ENGLISH_NUMBER_MAP)[j] == ENGLISH_NUMBER_MAP[j].0;
    }
    assert IsFirstFoundAt(ENGLISH_NUMBER_MAP, w, true, n);
    FirstFoundAt(ENGLISH_NUMBER_MAP, w, true, n);
  }

  /** Under the longest-first scan, every spelling `numberToKoreanVariants`
      offers for a non-negative number reads back as that number. */
  lemma VariantsReadBack(n: nat, k: int)
    requires 0 <= k < |NumberToKoreanVariants(n)|
    ensures ExtractNumberFromOption(NumberToKoreanVariants(n)[k]) == Some(n as real)
  {
    VariantAt(n, k);
    var v := NumberToKoreanVariants(n)[k];
    if k == 0 {
      WordReadsBack(v, n, 0);
    } else if n <= 10 && k < 3 {
      WordReadsBack(v, n, k);
    } else {
      WordReadsBack(v, n, 3);
    }
  }

  /** The decimal form (`form` 0), a Korean word (`form` 1 or 2) or the
      English word (`form` 3) of `n` reads back as `n`. */
  lemma WordReadsBack(v: string, n: nat, form: int)
    requires form == 0 ==> v == IntToString(n)
    requires 1 <= form <= 2 ==> n <= 10 && v == KOREAN_WORDS[n][form - 1]
    requires form == 3 ==> n <= 20 && v == ENGLISH_WORDS[n]
    requires 0 <= form <= 3
    ensures ExtractNumberFromOption(v) == Some(n as real)
  {
    if form == 0 {
      DecimalReadsBack(n);
    } else if form < 3 {
      KoreanWordReadsBack(n, form - 1);
    } else {
      EnglishWordReadsBack(n);
    }
  }


  /** The decimal spelling of a non-negative number reads back as it. */
  lemma DecimalReadsBack(n: nat)
    ensures ExtractNumberFromOption(IntToString(n)) == Some(n as real)
  {
    assert IntToString(n) == [] + NatToString(n) + [];
    DigitsReadFirst(KOREAN_SCAN_ORDER, [], n, []);
  }
}
