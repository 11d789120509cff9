/**
  The tokens JavaScript reads from the whitespace-free, whitelisted text that
  `calculateExpression` hands to `new Function` (math-solver.ts): numeric
  literals, read greedily as digits with an optional point and fraction, and
  the one-character punctuators `+ - * / ( )`.
*/
module MathLexer {
  import opened Optional
  import opened JsString
  import opened Numerals

  datatype Token = Number(value: real) | Punct(c: char)

  /** The punctuators the whitelist lets through. */
  predicate IsPunct(c: char) { c in "+-*/()" }

  /** The class `[\d+\-*\/().]` of the whitelist. */
  predicate IsCalcChar(c: char) { IsAsciiDigit(c) || IsPunct(c) || c == '.' }

  /** The numeric literal at the start of `s`, which starts with a digit or a
      point: its length and its value. None for a point with no digit on
      either side, and for a run of digits with a leading zero (`05`, `00`),
      which strict-mode code rejects as a legacy octal or leading-zero
      literal. */
  function LexNumber(s: string): (r: Option<(nat, real)>)
    requires |s| > 0 && (IsAsciiDigit(s[0]) || s[0] == '.')
    ensures r.Some? ==> 0 < r.value.0 <= |s|
    ensures r.Some? ==> r.value.1 >= 0.0
    ensures r.Some? && r.value.0 < |s| ==> !IsAsciiDigit(s[r.value.0])
    ensures r.None? <==> || (s[0] == '.' && (|s| == 1 || !IsAsciiDigit(s[1])))
                         || (s[0] == '0' && |s| > 1 && IsAsciiDigit(s[1]))
  {
    var k := DigitPrefix(s);
    if k >= 2 && s[0] == '0' then None
    else if k < |s| && s[k] == '.' then
      var f := DigitPrefix(s[k + 1..]);
      if k == 0 && f == 0 then None
      else Some((k + 1 + f, DigitsValue(s[..k]) as real + FractionValue(s[k + 1..][..f])))
    else
      Some((k, DigitsValue(s[..k]) as real))
  }

  /** No run of digits in `s` starts with a zero followed by another digit. */
  predicate NoLeadingZero(s: string) {
    forall i :: 0 <= i < |s| - 1 && s[i] == '0' && IsAsciiDigit(s[i + 1]) ==> 0 < i && IsAsciiDigit(s[i - 1])
  }

  /** The token sequence of `s`, or None when some character starts no token
      or a literal is malformed. A text of digits and punctuators with no
      leading zero always lexes. */
  function Lex(s: string): (r: Option<seq<Token>>)
    ensures (forall i :: 0 <= i < |s| ==> IsAsciiDigit(s[i]) || IsPunct(s[i])) && NoLeadingZero(s) ==> r.Some?
    decreases |s|
  {
    if |s| == 0 then Some([])
    else if IsPunct(s[0]) then
      assert NoLeadingZero(s) ==> NoLeadingZero(s[1..]) by {
        if NoLeadingZero(s) {
          forall i | 0 <= i < |s[1..]| - 1 && s[1..][i] == '0' && IsAsciiDigit(s[1..][i + 1])
            ensures 0 < i && IsAsciiDigit(s[1..][i - 1])
          {
            assert s[i + 1] == '0' && IsAsciiDigit(s[i + 2]);
          }
        }
      }
      match Lex(s[1..])
      case None => None
      case Some(ts) => Some([Punct(s[0])] + ts)
    else if IsAsciiDigit(s[0]) || s[0] == '.' then
      match LexNumber(s)
      case None => None
      case Some((n, v)) =>
        assert NoLeadingZero(s) && (n < |s| ==> IsPunct(s[n])) ==> NoLeadingZero(s[n..]) by {
          if NoLeadingZero(s) && (n < |s| ==> IsPunct(s[n])) {
            forall i | 0 <= i < |s[n..]| - 1 && s[n..][i] == '0' && IsAsciiDigit(s[n..][i + 1])
              ensures 0 < i && IsAsciiDigit(s[n..][i - 1])
            {
              assert s[n + i] == '0' && IsAsciiDigit(s[n + i + 1]);
            }
          }
        }
        match Lex(s[n..])
        case None => None
        case Some(ts) => Some([Number(v)] + ts)
    else None
  }

  /** A `+` or `-` followed by the same sign. JavaScript reads the pair as an
      update operator (`++`, `--`), and nothing the whitelist admits can be
      its operand, so such a text is an early syntax error. */
  predicate DoubledSign(ts: seq<Token>) {
    exists i :: 0 <= i < |ts| - 1 && (ts[i] == Punct('+') || ts[i] == Punct('-')) && ts[i + 1] == ts[i]
  }

  /** A token the printer can write: a natural literal or a whitelisted
      punctuator. */
  predicate NaturalToken(t: Token) {
    && (t.Number? ==> t.value.Floor as real == t.value && t.value >= 0.0)
    && (t.Punct? ==> IsPunct(t.c))
  }

  /** The text of a token, as the printer writes it: naturals in decimal. */
  function TokenText(t: Token): string
    requires NaturalToken(t)
  {
    match t
    case Number(v) => NatToString(v.Floor)
    case Punct(c) => [c]
  }

  /** A token sequence the printer can write back: natural literals only, and
      never two literals in a row. */
  predicate Printable(ts: seq<Token>) {
    forall i :: 0 <= i < |ts| ==> NaturalToken(ts[i]) && (i + 1 < |ts| ==> ts[i].Punct? || ts[i + 1].Punct?)
  }

  /** The text of a printable token sequence. */
  function Unlex(ts: seq<Token>): (s: string)
    requires Printable(ts)
    ensures forall i :: 0 <= i < |s| ==> IsAsciiDigit(s[i]) || IsPunct(s[i])
  {
    if |ts| == 0 then "" else TokenText(ts[0]) + Unlex(ts[1..])
  }

  /** Lexing the text of printable tokens gives the tokens back. */
  lemma {:induction false} LexUnlex(ts: seq<Token>)
    requires Printable(ts)
    ensures Lex(Unlex(ts)) == Some(ts)
    decreases |ts|
  {
    if |ts| > 0 {
      var rest := Unlex(ts[1..]);
      assert Printable(ts[1..]);
      LexUnlex(ts[1..]);
      assert ts == [ts[0]] + ts[1..];
      match ts[0]
      case Punct(c) =>
        assert IsPunct(c);
        LexPunctThen(c, rest, ts[1..]);
      case Number(v) =>
        assert |rest| > 0 ==> rest[0] == ts[1].c && IsPunct(rest[0]);
        LexDigitsThen(NatToString(v.Floor), rest, ts[1..]);
        DigitsValueOfNatToString(v.Floor);
    }
  }

  lemma LexPunctThen(c: char, rest: string, ts: seq<Token>)
    requires IsPunct(c) && Lex(rest) == Some(ts)
    ensures Lex([c] + rest) == Some([Punct(c)] + ts)
  {
    assert ([c] + rest)[1..] == rest;
  }

  /** A run of digits followed by a punctuator or nothing lexes as one literal. */
  lemma LexDigitsThen(d: string, rest: string, ts: seq<Token>)
    requires |d| > 0 && AllDigits(d) && (d[0] == '0' ==> |d| == 1)
    requires |rest| > 0 ==> IsPunct(rest[0])
    requires Lex(rest) == Some(ts)
    ensures Lex(d + rest) == Some([Number(DigitsValue(d) as real)] + ts)
  {
    var s := d + rest;
    DigitPrefixOfDigits(d, rest);
    assert s[..|d|] == d;
    assert s[|d|..] == rest;
  }
}
