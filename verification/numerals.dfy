/**
  Numeral spellings of the math solver (math-solver.ts): the Korean and English
  number-word tables, the decimal rendering and reading of numbers, the list of
  spellings offered for an answer (`numberToKoreanVariants`) and the reading of
  a spelling back into a number (`convertKoreanNumber`).
*/
module Numerals {
  import opened Optional
  import opened JsString
  import Constants

  /** An ordered word-to-number table, in declaration order. */
  type NumeralTable = seq<(string, int)>

  /** `KOREAN_NUMBER_MAP`: Sino-Korean digits first, then native Korean words. */
  const KOREAN_NUMBER_MAP: NumeralTable := [
    ("영", 0), ("공", 0), ("일", 1), ("이", 2), ("삼", 3), ("사", 4), ("오", 5), ("육", 6),
    ("칠", 7), ("팔", 8), ("구", 9), ("십", 10),
    ("하나", 1), ("둘", 2), ("셋", 3), ("넷", 4), ("다섯", 5), ("여섯", 6), ("일곱", 7),
    ("여덟", 8), ("아홉", 9), ("열", 10)]

  /** `ENGLISH_NUMBER_MAP`: zero to twenty. */
  const ENGLISH_NUMBER_MAP: NumeralTable := [
    ("zero", 0), ("one", 1), ("two", 2), ("three", 3), ("four", 4), ("five", 5), ("six", 6),
    ("seven", 7), ("eight", 8), ("nine", 9), ("ten", 10), ("eleven", 11), ("twelve", 12),
    ("thirteen", 13), ("fourteen", 14), ("fifteen", 15), ("sixteen", 16), ("seventeen", 17),
    ("eighteen", 18), ("nineteen", 19), ("twenty", 20)]

  /** The `koreanMap` of `numberToKoreanVariants`: the Sino-Korean and the
      native word of 0 to 10, indexed by the number. */
  const KOREAN_WORDS: seq<seq<string>> := [
    ["영", "공"], ["일", "하나"], ["이", "둘"], ["삼", "셋"], ["사", "넷"], ["오", "다섯"],
    ["육", "여섯"], ["칠", "일곱"], ["팔", "여덟"], ["구", "아홉"], ["십", "열"]]

  /** The `englishMap` of `numberToKoreanVariants`, indexed by the number. */
  const ENGLISH_WORDS: seq<string> := [
    "zero", "one", "two", "three", "four", "five", "six", "seven", "eight", "nine", "ten",
    "eleven", "twelve", "thirteen", "fourteen", "fifteen", "sixteen", "seventeen", "eighteen",
    "nineteen", "twenty"]

  // ---------------------------------------------------------------------------
  // Decimal digits

  predicate AllDigits(s: string) {
    forall i :: 0 <= i < |s| ==> IsAsciiDigit(s[i])
  }

  function DigitValue(c: char): (d: nat)
    requires IsAsciiDigit(c)
    ensures d < 10
  {
    c as int - '0' as int
  }

  function DigitChar(d: nat): (c: char)
    requires d < 10
    ensures IsAsciiDigit(c) && DigitValue(c) == d
  {
    ('0' as int + d) as char
  }

  /** The value of a string of decimal digits, most significant first. */
  function DigitsValue(s: string): nat
    requires AllDigits(s)
  {
    if |s| == 0 then 0 else DigitsValue(s[..|s| - 1]) * 10 + DigitValue(s[|s| - 1])
  }

  /** The value of the digits after a decimal point. */
  function FractionValue(s: string): (v: real)
    requires AllDigits(s)
    ensures 0.0 <= v < 1.0
  {
    if |s| == 0 then 0.0 else (DigitValue(s[0]) as real + FractionValue(s[1..])) / 10.0
  }

  /** `String(n)` for a natural number: its decimal digits, no leading zero. */
  function NatToString(n: nat): (s: string)
    ensures |s| > 0 && AllDigits(s)
    ensures s[0] == '0' ==> n == 0 && |s| == 1
  {
    if n < 10 then [DigitChar(n)] else NatToString(n / 10) + [DigitChar(n % 10)]
  }

  /** `String(n)` for an integer. */
  function IntToString(n: int): (s: string)
    ensures |s| > 0
    ensures n >= 0 ==> AllDigits(s)
    ensures n < 0 ==> s[0] == '-' && AllDigits(s[1..])
  {
    if n < 0 then "-" + NatToString(-n) else NatToString(n)
  }

  /** Reading the digits back gives the number. */
  lemma {:induction false} DigitsValueOfNatToString(n: nat)
    ensures DigitsValue(NatToString(n)) == n
  {
    var s := NatToString(n);
    if n >= 10 {
      assert s[..|s| - 1] == NatToString(n / 10);
      DigitsValueOfNatToString(n / 10);
    }
  }

  /** The number of leading digits of `s`. */
  function DigitPrefix(s: string): (k: nat)
    ensures k <= |s| && AllDigits(s[..k])
    ensures k < |s| ==> !IsAsciiDigit(s[k])
  {
    if |s| == 0 || !IsAsciiDigit(s[0]) then 0
    else
      var k := 1 + DigitPrefix(s[1..]);
      assert s[..k] == [s[0]] + s[1..][..k - 1];
      k
  }

  /** The digit prefix of a digit run followed by a non-digit is the run. */
  lemma {:induction false} DigitPrefixOfDigits(a: string, b: string)
    requires AllDigits(a)
    requires |b| > 0 ==> !IsAsciiDigit(b[0])
    ensures DigitPrefix(a + b) == |a|
  {
    if |a| > 0 {
      assert (a + b)[1..] == a[1..] + b;
      DigitPrefixOfDigits(a[1..], b);
    }
  }

  /** `Number(s)` on an unsigned decimal literal: digits with an optional
      fraction, where either side of the point may be empty but not both. */
  function ParseUnsigned(s: string): (r: Option<real>)
    ensures r.Some? ==> r.value >= 0.0
  {
    var k := DigitPrefix(s);
    if k == |s| then
      if k == 0 then None else Some(DigitsValue(s) as real)
    else if s[k] != '.' then None
    else
      var frac := s[k + 1..];
      if !AllDigits(frac) || (k == 0 && |frac| == 0) then None
      else Some(DigitsValue(s[..k]) as real + FractionValue(frac))
  }

  /** `Number(s)` on a trimmed string, for the plain decimal literals this
      model admits (an optional sign and an unsigned literal) and for the empty
      string, which JavaScript reads as 0. Every other string is NaN here
      (None); exponents and hexadecimal literals are not modelled. */
  function ParseNumber(s: string): (r: Option<real>)
    ensures |s| == 0 ==> r == Some(0.0)
    ensures |s| > 0 && AllDigits(s) ==> r == Some(DigitsValue(s) as real)
    ensures |s| > 0 && r.Some? ==> IsAsciiDigit(s[0]) || s[0] in "+-."
  {
    if |s| == 0 then Some(0.0)
    else if s[0] == '+' then ParseUnsigned(s[1..])
    else if s[0] == '-' then
      match ParseUnsigned(s[1..])
      case None => None
      case Some(v) => Some(-v)
    else ParseUnsigned(s)
  }

  /** `Number(String(n)) == n` for every integer. */
  lemma ParseIntToString(n: int)
    ensures ParseNumber(IntToString(n)) == Some(n as real)
  {
    if n < 0 {
      var d := NatToString(-n);
      assert ("-" + d)[1..] == d;
      UnsignedDigits(d);
      DigitsValueOfNatToString(-n);
    } else {
      DigitsValueOfNatToString(n);
    }
  }

  /** A run of digits reads as its value. */
  lemma UnsignedDigits(d: string)
    requires |d| > 0 && AllDigits(d)
    ensures ParseUnsigned(d) == Some(DigitsValue(d) as real)
  {
    DigitPrefixOfDigits(d, []);
    assert d + [] == d;
  }

  // ---------------------------------------------------------------------------
  // Tables

  /** `table[i]` is the first row whose word is `key`. */
  predicate IsFirstKeyAt(table: NumeralTable, key: string, i: int) {
    && 0 <= i < |table|
    && table[i].0 == key
    && forall j :: 0 <= j < i ==> table[j].0 != key
  }

  /** `table[key]` for a key the table itself defines. */
  function Lookup(table: NumeralTable, key: string): (r: Option<int>)
    ensures r.None? <==> forall i :: 0 <= i < |table| ==> table[i].0 != key
    ensures r.Some? ==> exists i :: IsFirstKeyAt(table, key, i) && r.value == table[i].1
  {
    if |table| == 0 then None
    else if table[0].0 == key then
      assert IsFirstKeyAt(table, key, 0);
      Some(table[0].1)
    else
      var r := Lookup(table[1..], key);
      assert forall i :: 1 <= i < |table| ==> table[i] == table[1..][i - 1];
      if r.Some? then
        var i :| IsFirstKeyAt(table[1..], key, i) && r.value == table[1..][i].1;
        assert IsFirstKeyAt(table, key, i + 1);
        r
      else
        r
  }

  /** The words of a table, in order. */
  function Words(table: NumeralTable): (ws: seq<string>)
    ensures |ws| == |table| && forall i :: 0 <= i < |table| ==> ws[i] == table[i].0
  {
    seq(|table|, i requires 0 <= i < |table| => table[i].0)
  }

  /** In a table without repeated words, looking a row's word up gives its value. */
  lemma {:induction false} LookupDistinct(table: NumeralTable, i: int)
    requires Constants.NoDuplicates(Words(table))
    requires 0 <= i < |table|
    ensures Lookup(table, table[i].0) == Some(table[i].1)
  {
    var key := table[i].0;
    assert table[i].0 == key;
    assert Lookup(table, key).Some?;
    var k :| IsFirstKeyAt(table, key, k) && Lookup(table, key).value == table[k].1;
    assert 0 <= k < |table| && table[k].0 == key;
    assert Words(table)[k] == key == Words(table)[i];
  }

  /** Words that differ in length, first or last character are distinct. */
  lemma {:induction false} DistinctByEnds(words: seq<string>)
    requires forall a, b :: 0 <= a < b < |words| ==>
      |words[a]| != |words[b]|
      || (|words[a]| > 0 && |words[b]| > 0
          && (words[a][0] != words[b][0] || words[a][|words[a]| - 1] != words[b][|words[b]| - 1]))
    ensures Constants.NoDuplicates(words)
  {
  }

  /** Both tables list every word once. */
  lemma TablesHaveNoDuplicates()
    ensures Constants.NoDuplicates(Words(KOREAN_NUMBER_MAP))
    ensures Constants.NoDuplicates(Words(ENGLISH_NUMBER_MAP))
  {
    DistinctByEnds(Words(KOREAN_NUMBER_MAP));
    Constants.DistinctByShapes(Words(ENGLISH_NUMBER_MAP));
  }

  /** Each word of `koreanMap` is the table row of the same number: the
      Sino-Korean word of n, then its native word. */
  lemma KoreanRowOf(n: int, j: int)
    requires 0 <= n <= 10 && 0 <= j < 2
    ensures var row := if j == 0 then (if n == 0 then 0 else n + 1) else (if n == 0 then 1 else n + 11);
      0 <= row < |KOREAN_NUMBER_MAP| && KOREAN_NUMBER_MAP[row] == (KOREAN_WORDS[n][j], n)
  {
  }

  /** The two Korean tables agree: every word `numberToKoreanVariants` offers
      for n reads back as n, and every row of `KOREAN_NUMBER_MAP` is offered
      for its number. */
  lemma KoreanTablesAgree(n: int, j: int)
    requires 0 <= n <= 10 && 0 <= j < 2
    ensures Lookup(KOREAN_NUMBER_MAP, KOREAN_WORDS[n][j]) == Some(n)
  {
    KoreanRowOf(n, j);
    TablesHaveNoDuplicates();
    var row := if j == 0 then (if n == 0 then 0 else n + 1) else (if n == 0 then 1 else n + 11);
    LookupDistinct(KOREAN_NUMBER_MAP, row);
  }

  /** Every row of `KOREAN_NUMBER_MAP` is offered by `koreanMap` for its number. */
  lemma KoreanRowsOffered(i: int)
    requires 0 <= i < |KOREAN_NUMBER_MAP|
    ensures 0 <= KOREAN_NUMBER_MAP[i].1 <= 10 && KOREAN_NUMBER_MAP[i].0 in KOREAN_WORDS[KOREAN_NUMBER_MAP[i].1]
  {
  }

  /** The two English tables agree, in both directions. */
  lemma EnglishTablesAgree(n: int)
    requires 0 <= n <= 20
    ensures Lookup(ENGLISH_NUMBER_MAP, ENGLISH_WORDS[n]) == Some(n)
    ensures ENGLISH_NUMBER_MAP[n] == (ENGLISH_WORDS[n], n)
  {
    EnglishRows();
    TablesHaveNoDuplicates();
    LookupDistinct(ENGLISH_NUMBER_MAP, n);
  }

  /** Row n of `ENGLISH_NUMBER_MAP` is the n-th word of `englishMap`. */
  lemma EnglishRows()
    ensures forall n :: 0 <= n < |ENGLISH_NUMBER_MAP| ==> ENGLISH_NUMBER_MAP[n] == (ENGLISH_WORDS[n], n)
  {
    assert Words(ENGLISH_NUMBER_MAP) == ENGLISH_WORDS;
  }

  /** Every Korean table word starts with a Hangul syllable. */
  lemma KoreanWordsHangul()
    ensures forall i :: 0 <= i < |KOREAN_NUMBER_MAP| ==>
      |KOREAN_NUMBER_MAP[i].0| > 0 && IsHangulSyllable(KOREAN_NUMBER_MAP[i].0[0])
  {
  }

  /** `numberToKoreanVariants`: the decimal form first, then the two Korean
      words for 0 to 10, then the English word for 0 to 20. */
  function NumberToKoreanVariants(n: int): (vs: seq<string>)
    ensures |vs| == (if 0 <= n <= 10 then 4 else if 0 <= n <= 20 then 2 else 1)
    ensures vs[0] == IntToString(n)
  {
    [IntToString(n)]
    + (if 0 <= n <= 10 then KOREAN_WORDS[n] else [])
    + (if 0 <= n <= 20 then [ENGLISH_WORDS[n]] else [])
  }

  /** `convertKoreanNumber` with the tables read by their own words only: the
      trimmed, lower-cased text as a number, else as a Korean word, else as an
      English word. */
  function ConvertKoreanNumber(text: string): (r: Option<real>)
    ensures var w := ToLowerCase(Trim(text));
      r.None? <==> ParseNumber(w).None? && Lookup(KOREAN_NUMBER_MAP, w).None? && Lookup(ENGLISH_NUMBER_MAP, w).None?
    ensures var w := ToLowerCase(Trim(text));
      r.Some? ==> r == ParseNumber(w)
                  || (exists n :: HasRow(KOREAN_NUMBER_MAP, w, n) && r.value == n as real)
                  || (exists n :: HasRow(ENGLISH_NUMBER_MAP, w, n) && r.value == n as real)
    ensures var w := ToLowerCase(Trim(text));
      ParseNumber(w).Some? ==> r == ParseNumber(w)
    ensures var w := ToLowerCase(Trim(text));
      forall n :: ParseNumber(w).None? && HasRow(KOREAN_NUMBER_MAP, w, n) ==> r == Some(n as real)
    ensures var w := ToLowerCase(Trim(text));
      forall n ::
        && ParseNumber(w).None?
        && (forall i :: 0 <= i < |KOREAN_NUMBER_MAP| ==> KOREAN_NUMBER_MAP[i].0 != w)
        && HasRow(ENGLISH_NUMBER_MAP, w, n)
        ==> r == Some(n as real)
  {
    var w := ToLowerCase(Trim(text));
    TablesHaveNoDuplicates();
    assert forall n :: HasRow(KOREAN_NUMBER_MAP, w, n) ==> Lookup(KOREAN_NUMBER_MAP, w) == Some(n) by {
      forall n | HasRow(KOREAN_NUMBER_MAP, w, n) {
        HasRowLookup(KOREAN_NUMBER_MAP, w, n);
      }
    }
    assert forall n :: HasRow(ENGLISH_NUMBER_MAP, w, n) ==> Lookup(ENGLISH_NUMBER_MAP, w) == Some(n) by {
      forall n | HasRow(ENGLISH_NUMBER_MAP, w, n) {
        HasRowLookup(ENGLISH_NUMBER_MAP, w, n);
      }
    }
    match ParseNumber(w)
    case Some(v) => Some(v)
    case None =>
      match Lookup(KOREAN_NUMBER_MAP, w)
      case Some(n) => LookupHasRow(KOREAN_NUMBER_MAP, w); Some(n as real)
      case None =>
        match Lookup(ENGLISH_NUMBER_MAP, w)
        case Some(n) => LookupHasRow(ENGLISH_NUMBER_MAP, w); Some(n as real)
        case None => None
  }

  /** The table has the row `(w, n)`. */
  predicate HasRow(table: NumeralTable, w: string, n: int) {
    exists i :: 0 <= i < |table| && table[i] == (w, n)
  }

  /** In a table without repeated words, a row's word looks up its value. */
  lemma HasRowLookup(table: NumeralTable, w: string, n: int)
    requires Constants.NoDuplicates(Words(table))
    requires HasRow(table, w, n)
    ensures Lookup(table, w) == Some(n)
  {
    var i :| 0 <= i < |table| && table[i] == (w, n);
    LookupDistinct(table, i);
  }

  /** A word found in a table comes from one of its rows. */
  lemma LookupHasRow(table: NumeralTable, w: string)
    requires Lookup(table, w).Some?
    ensures HasRow(table, w, Lookup(table, w).value)
  {
    var i :| IsFirstKeyAt(table, w, i) && Lookup(table, w).value == table[i].1;
    assert table[i] == (w, Lookup(table, w).value);
  }

  /** A number word has no whitespace, no capitals and does not start like a
      numeric literal. */
  predicate IsPlainWord(w: string) {
    && |w| > 0
    && NoWhitespace(w)
    && (forall i :: 0 <= i < |w| ==> !IsAsciiUpper(w[i]))
    && !IsAsciiDigit(w[0]) && w[0] !in "+-."
  }

  /** A plain word converts through the tables alone. */
  lemma ConvertPlainWord(w: string)
    requires IsPlainWord(w)
    ensures ToLowerCase(Trim(w)) == w && ParseNumber(w).None?
  {
    TrimNoWhitespace(w);
    ToLowerCaseNoUpper(w);
  }

  /** The decimal spelling reads back as the number. */
  lemma ConvertDecimalBack(n: int)
    ensures ConvertKoreanNumber(IntToString(n)) == Some(n as real)
  {
    var s := IntToString(n);
    assert NoWhitespace(s) by {
      assert forall i :: 0 <= i < |s| ==> s[i] == '-' || IsAsciiDigit(s[i]);
    }
    TrimNoWhitespace(s);
    ToLowerCaseNoUpper(s);
    ParseIntToString(n);
  }

  /** Both Korean spellings read back as the number. */
  lemma ConvertKoreanBack(n: int, j: int)
    requires 0 <= n <= 10 && 0 <= j < 2
    ensures ConvertKoreanNumber(KOREAN_WORDS[n][j]) == Some(n as real)
  {
    KoreanWordsPlain(n, j);
    ConvertPlainWord(KOREAN_WORDS[n][j]);
    KoreanTablesAgree(n, j);
  }

  /** The English spelling reads back as the number. */
  lemma ConvertEnglishBack(n: int)
    requires 0 <= n <= 20
    ensures ConvertKoreanNumber(ENGLISH_WORDS[n]) == Some(n as real)
  {
    var v := ENGLISH_WORDS[n];
    EnglishWordPlain(n);
    ConvertPlainWord(v);
    EnglishTablesAgree(n);
    KoreanWordsHangul();
    assert Lookup(KOREAN_NUMBER_MAP, v).None?;
  }

  /** Every spelling `numberToKoreanVariants` offers reads back, through
      `convertKoreanNumber`, as the number it was made from. */
  lemma VariantsConvertBack(n: int, k: int)
    requires 0 <= k < |NumberToKoreanVariants(n)|
    ensures ConvertKoreanNumber(NumberToKoreanVariants(n)[k]) == Some(n as real)
  {
    VariantAt(n, k);
    if k == 0 {
      ConvertDecimalBack(n);
    } else if 0 <= n <= 10 && k < 3 {
      ConvertKoreanBack(n, k - 1);
    } else {
      ConvertEnglishBack(n);
    }
  }

  /** Which spelling sits at position `k` of the variants. */
  lemma VariantAt(n: int, k: int)
    requires 0 <= k < |NumberToKoreanVariants(n)|
    ensures var v := NumberToKoreanVariants(n)[k];
      if k == 0 then v == IntToString(n)
      else if 0 <= n <= 10 && k < 3 then v == KOREAN_WORDS[n][k - 1]
      else 0 <= n <= 20 && v == ENGLISH_WORDS[n]
  {
  }

  lemma KoreanWordsPlain(n: int, j: int)
    requires 0 <= n <= 10 && 0 <= j < 2
    ensures IsPlainWord(KOREAN_WORDS[n][j])
    ensures forall k :: 0 <= k < |KOREAN_WORDS[n][j]| ==> IsHangulSyllable(KOREAN_WORDS[n][j][k])
  {
  }

  lemma EnglishWordPlain(n: int)
    requires 0 <= n <= 20
    ensures IsPlainWord(ENGLISH_WORDS[n])
    ensures forall k :: 0 <= k < |ENGLISH_WORDS[n]| ==> IsAsciiLower(ENGLISH_WORDS[n][k])
  {
    if n <= 10 {
      EnglishWordsLowerUpToTen(n);
    } else {
      EnglishWordsLowerFromEleven(n);
    }
    LowerWordIsPlain(ENGLISH_WORDS[n]);
  }

  lemma EnglishWordsLowerUpToTen(n: int)
    requires 0 <= n <= 10
    ensures |ENGLISH_WORDS[n]| > 0 && forall k :: 0 <= k < |ENGLISH_WORDS[n]| ==> IsAsciiLower(ENGLISH_WORDS[n][k])
  {
  }

  lemma EnglishWordsLowerFromEleven(n: int)
    requires 11 <= n <= 20
    ensures |ENGLISH_WORDS[n]| > 0 && forall k :: 0 <= k < |ENGLISH_WORDS[n]| ==> IsAsciiLower(ENGLISH_WORDS[n][k])
  {
  }

  // ---------------------------------------------------------------------------
  // convertKoreanNumber as written: `KOREAN_NUMBER_MAP[normalized]` on a plain
  // object literal also finds the keys every object inherits.

  /** The JavaScript values `convertKoreanNumber` can return: a number, null,
      or a property inherited from `Object.prototype`. */
  datatype JsValue = JsNumber(n: real) | JsNull | JsInherited(name: string)

  /** The inherited property names of a plain object that are already lower
      case, so that a trimmed, lower-cased text can name them. */
  const INHERITED_KEYS: seq<string> := ["constructor", "__proto__"]

  /** `convertKoreanNumber` as written: the Korean table is indexed like a
      JavaScript object, so the inherited keys are found there too. */
  function ConvertKoreanNumberAsWritten(text: string): (r: JsValue)
    ensures r.JsInherited? ==> r.name == ToLowerCase(Trim(text)) && r.name in INHERITED_KEYS
  {
    var w := ToLowerCase(Trim(text));
    match ParseNumber(w)
    case Some(v) => JsNumber(v)
    case None =>
      match Lookup(KOREAN_NUMBER_MAP, w)
      case Some(n) => JsNumber(n as real)
      case None =>
        if w in INHERITED_KEYS then JsInherited(w)
        else
          match Lookup(ENGLISH_NUMBER_MAP, w)
          case Some(n) => JsNumber(n as real)
          case None => JsNull
  }

  /** The JavaScript value of an optional number. */
  function ToJs(r: Option<real>): (v: JsValue)
    ensures v.JsInherited? == false
    ensures v.JsNull? <==> r.None?
  {
    match r
    case Some(x) => JsNumber(x)
    case None => JsNull
  }

  /** Away from the inherited keys, the code as written and the own-key
      reading agree. */
  lemma AsWrittenAgrees(text: string)
    requires ToLowerCase(Trim(text)) !in INHERITED_KEYS
    ensures ConvertKoreanNumberAsWritten(text) == ToJs(ConvertKoreanNumber(text))
  {
  }

  /** "constructor" is no number, yet the code as written returns the
      inherited `Object` constructor for it instead of null. */
  lemma ConstructorIsNotANumber()
    ensures ConvertKoreanNumberAsWritten("constructor") == JsInherited("constructor")
    ensures ConvertKoreanNumber("constructor") == None
  {
    ConstructorInNoTable();
    ConstructorIsInherited();
    AsWrittenFindsInherited("constructor");
  }

  /** A text that is no number and no Korean word, but names an inherited
      key, yields that inherited property. */
  lemma AsWrittenFindsInherited(text: string)
    requires var w := ToLowerCase(Trim(text));
      ParseNumber(w).None? && Lookup(KOREAN_NUMBER_MAP, w).None? && w in INHERITED_KEYS
    ensures ConvertKoreanNumberAsWritten(text) == JsInherited(ToLowerCase(Trim(text)))
  {
  }

  /** Every plain object inherits `constructor`. */
  lemma ConstructorIsInherited()
    ensures "constructor" in INHERITED_KEYS
  {
    assert INHERITED_KEYS[0] == "constructor";
  }

  /** "constructor" is a plain word that neither table holds. */
  lemma ConstructorInNoTable()
    ensures ToLowerCase(Trim("constructor")) == "constructor" && ParseNumber("constructor").None?
    ensures Lookup(KOREAN_NUMBER_MAP, "constructor").None?
    ensures Lookup(ENGLISH_NUMBER_MAP, "constructor").None?
  {
    var w := "constructor";
    ConstructorIsPlain();
    ConvertPlainWord(w);
    assert w[0] == 'c';
    EnglishInitials(w);
    NotInEnglishTable(w);
    NotInKoreanTable(w);
  }

  lemma ConstructorIsPlain()
    ensures IsPlainWord("constructor")
  {
    var w := "constructor";
    assert w == ['c', 'o', 'n', 's', 't', 'r', 'u', 'c', 't', 'o', 'r'];
    LowerWordIsPlain(w);
  }

  /** A word of lower-case ASCII letters is a plain word. */
  lemma LowerWordIsPlain(w: string)
    requires |w| > 0 && forall i :: 0 <= i < |w| ==> IsAsciiLower(w[i])
    ensures IsPlainWord(w)
  {
  }

  /** A word that does not start with a Hangul syllable is no Korean table key. */
  lemma NotInKoreanTable(w: string)
    requires |w| > 0 && !IsHangulSyllable(w[0])
    ensures Lookup(KOREAN_NUMBER_MAP, w).None?
  {
    KoreanWordsHangul();
  }

  /** A word missing from `englishMap` is no English table key. */
  lemma NotInEnglishTable(w: string)
    requires w !in ENGLISH_WORDS
    ensures Lookup(ENGLISH_NUMBER_MAP, w).None?
  {
    EnglishRows();
    forall i | 0 <= i < |ENGLISH_NUMBER_MAP|
      ensures ENGLISH_NUMBER_MAP[i].0 != w
    {
      assert ENGLISH_NUMBER_MAP[i].0 == ENGLISH_WORDS[i];
    }
  }

  /** The English words begin with one of the letters of "zotfsen" only. */
  lemma EnglishInitials(w: string)
    requires |w| > 0 && w[0] !in "zotfsen"
    ensures w !in ENGLISH_WORDS
  {
    assert forall i :: 0 <= i < |ENGLISH_WORDS| ==> ENGLISH_WORDS[i][0] in "zotfsen";
  }
}
