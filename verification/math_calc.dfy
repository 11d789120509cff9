/**
  `calculateExpression` and `extractAndCalculate` of the math solver
  (math-solver.ts): strip the whitespace, check the characters against the
  whitelist and the parentheses with a running counter, read the text as the
  JavaScript expression `(${normalized})`, and round a finite result to two
  decimals.
*/
module MathCalc {
  import opened Optional
  import opened JsString
  import opened Numerals
  import opened JsNumber
  import opened MathLexer
  import opened MathParser
  import opened MathExtract

  // ---------------------------------------------------------------------------
  // The parenthesis counter

  /** What one character does to the counter. */
  function Delta(c: char): int {
    if c == '(' then 1 else if c == ')' then -1 else 0
  }

  /** Opening minus closing parentheses. */
  function Depth(s: string): int {
    if |s| == 0 then 0 else Delta(s[0]) + Depth(s[1..])
  }

  /** No prefix closes more parentheses than it opens, and the whole text
      closes all it opens. */
  predicate Balanced(s: string) {
    Depth(s) == 0 && forall k :: 0 <= k <= |s| ==> Depth(s[..k]) >= 0
  }

  /** The loop over `normalized`, with the counter at `balance`: false as soon
      as the counter drops below zero, else whether it ends at zero. */
  function ParenScan(s: string, balance: int): bool {
    if |s| == 0 then balance == 0
    else
      var b := balance + Delta(s[0]);
      if b < 0 then false else ParenScan(s[1..], b)
  }

  /** The loop accepts exactly when the counter started at `balance` stays
      non-negative on every prefix and ends at zero. */
  lemma {:induction false} ParenScanSpec(s: string, balance: int)
    requires balance >= 0
    ensures ParenScan(s, balance) <==>
      balance + Depth(s) == 0 && forall k :: 0 <= k <= |s| ==> balance + Depth(s[..k]) >= 0
  {
    if |s| > 0 {
      var b := balance + Delta(s[0]);
      forall k | 1 <= k <= |s|
        ensures Depth(s[..k]) == Delta(s[0]) + Depth(s[1..][..k - 1])
      {
        assert s[..k][1..] == s[1..][..k - 1];
      }
      if b < 0 {
        assert balance + Depth(s[..1]) < 0;
      } else {
        ParenScanSpec(s[1..], b);
        if forall k :: 0 <= k <= |s| - 1 ==> b + Depth(s[1..][..k]) >= 0 {
          forall k | 0 <= k <= |s|
            ensures balance + Depth(s[..k]) >= 0
          {
            if k > 0 {
              assert b + Depth(s[1..][..k - 1]) >= 0;
            }
          }
        } else {
          var k :| 0 <= k <= |s| - 1 && b + Depth(s[1..][..k]) < 0;
          assert balance + Depth(s[..k + 1]) < 0;
        }
      }
    }
  }

  /** The parenthesis loop of `calculateExpression`, started at zero, accepts exactly the
      balanced texts. */
  lemma ParenCheckAcceptsBalanced(s: string)
    ensures ParenScan(s, 0) <==> Balanced(s)
  {
    ParenScanSpec(s, 0);
  }

  // ---------------------------------------------------------------------------
  // calculateExpression

  /** `/^[\d+\-*\/().]+$/.test(normalized)`. */
  predicate Whitelisted(s: string) {
    |s| > 0 && forall i :: 0 <= i < |s| ==> IsCalcChar(s[i])
  }

  /** `Math.round(result * 100) / 100` for a finite result, and null for
      anything else. */
  function Answer(x: Num): (r: Option<real>)
    ensures r.Some? <==> IsFinite(x)
    ensures r.Some? ==> Value(x) - 0.005 < r.value <= Value(x) + 0.005
    ensures r.Some? ==> (r.value * 100.0).Floor as real == r.value * 100.0
  {
    if IsFinite(x) then
      Round2Nearest(Value(x), 0);
      Some(Round2(Value(x)))
    else None
  }

  /** The expression `new Function` reads from the normalized text: the text
      is put in parentheses, so it must be one expression, and a syntax error
      (a malformed literal, an update operator, a token out of place) gives
      None. */
  function Interpret(n: string): (r: Option<Expr>)
    ensures r.Some? ==> Lex(n).Some? && !DoubledSign(Lex(n).value)
  {
    match Lex(n)
    case None => None
    case Some(ts) => if DoubledSign(ts) then None else Parse(Wrap(ts))
  }

  /** `calculateExpression`. */
  function Calculate(expression: string): (r: Option<real>)
    ensures !Whitelisted(RemoveWhitespace(expression)) ==> r.None?
    ensures !Balanced(RemoveWhitespace(expression)) ==> r.None?
    ensures r.Some? ==> var e := Interpret(RemoveWhitespace(expression));
      && e.Some? && IsFinite(Eval(e.value))
      && Value(Eval(e.value)) - 0.005 < r.value <= Value(Eval(e.value)) + 0.005
  {
    var n := RemoveWhitespace(expression);
    ParenCheckAcceptsBalanced(n);
    if !Whitelisted(n) then None
    else if !ParenScan(n, 0) then None
    else
      match Interpret(n)
      case None => None
      case Some(e) => Answer(Eval(e))
  }

  /** Whitespace anywhere in the text makes no difference. */
  lemma WhitespaceIgnored(s: string)
    ensures Calculate(s) == Calculate(RemoveWhitespace(s))
  {
    assert RemoveWhitespace(RemoveWhitespace(s)) == RemoveWhitespace(s);
  }

  /** `extractAndCalculate`. */
  function ExtractAndCalculate(text: string): (r: Option<real>)
    ensures ExtractMathExpression(text).None? ==> r.None?
    ensures r.Some? ==> var e := ExtractMathExpression(text);
      e.Some? && IsExpressionText(e.value) && r == Calculate(e.value)
  {
    match ExtractMathExpression(text)
    case None => None
    case Some(e) =>
      ExtractedIsExpression(text);
      Calculate(e)
  }

  // ---------------------------------------------------------------------------
  // Printed expressions

  /** Every literal of `e` is a natural number, as a printed text writes it. */
  predicate NaturalLiterals(e: Expr) {
    match e
    case Lit(v) => v.Floor as real == v && v >= 0.0
    case UnaryPlus(x) => NaturalLiterals(x)
    case UnaryMinus(x) => NaturalLiterals(x)
    case Binary(_, l, r) => NaturalLiterals(l) && NaturalLiterals(r)
  }

  /** The text of an expression with natural literals and every operation in
      parentheses: `(1+(2*3))`, `(-4)`. */
  function PrintedText(e: Expr): (t: string)
    requires NaturalLiterals(e)
    ensures Lex(t) == Some(Tokens(e))
  {
    PrintableTokens(e);
    LexUnlex(Tokens(e));
    Unlex(Tokens(e))
  }

  /** The text of `x o1 y o2 z` with no parentheses around the two
      operations: `2+3*4`. */
  function ThreeText(x: Expr, o1: BinOp, y: Expr, o2: BinOp, z: Expr): (t: string)
    requires NaturalLiterals(x) && NaturalLiterals(y) && NaturalLiterals(z)
    ensures Lex(t) == Some(ThreeOperands(x, o1, y, o2, z))
  {
    PrintableThree(x, o1, y, o2, z);
    LexUnlex(ThreeOperands(x, o1, y, o2, z));
    Unlex(ThreeOperands(x, o1, y, o2, z))
  }

  /** A text that passes both checks and reads as `e` is calculated as `e`
      evaluates. */
  lemma CalculateReads(t: string, e: Expr)
    requires NoWhitespace(t) && Whitelisted(t) && Balanced(t) && Interpret(t) == Some(e)
    ensures Calculate(t) == Answer(Eval(e))
  {
    assert RemoveWhitespace(t) == t;
    ParenCheckAcceptsBalanced(t);
  }

  /** The text of an expression evaluates as the expression does:
      `calculateExpression` reads back what was written and rounds its
      value. */
  lemma CalculatePrinted(e: Expr)
    requires NaturalLiterals(e)
    ensures Calculate(PrintedText(e)) == Answer(Eval(e))
  {
    var ts := Tokens(e);
    PrintableTokens(e);
    var t := PrintedText(e);
    assert t == Unlex(ts);
    PrintedIsCalculable(ts);
    BalancedPrinted(e);
    InterpretPrinted(e);
    CalculateReads(t, e);
  }

  /** The text printed for an expression is read back as that expression. */
  lemma InterpretPrinted(e: Expr)
    requires NaturalLiterals(e)
    ensures Interpret(PrintedText(e)) == Some(e)
  {
    SignsFollowedTokens(e);
    ParseWrappedTokens(e);
  }

  /** Only the final value is checked for finiteness: `y / (x / 0)` with a
      non-zero `x` divides by an infinity and answers 0, as in JavaScript. */
  lemma DivisionByInfinityAnswersZero(y: Expr, q: Expr)
    requires NaturalLiterals(y) && NaturalLiterals(q)
    requires q.Binary? && q.op == Over && q.right == Lit(0.0)
    requires RealValue(y).Some? && RealValue(q.left).Some? && RealValue(q.left).value != 0.0
    ensures Calculate(PrintedText(Binary(Over, y, q))) == Some(0.0)
  {
    CalculatePrinted(Binary(Over, y, q));
    OverInfinityAnswersZero(y, q);
  }

  lemma OverInfinityAnswersZero(y: Expr, q: Expr)
    requires q.Binary? && q.op == Over && q.right == Lit(0.0)
    requires RealValue(y).Some? && RealValue(q.left).Some? && RealValue(q.left).value != 0.0
    ensures Answer(Eval(Binary(Over, y, q))) == Some(0.0)
  {
    var x, v := Eval(q.left), Eval(y);
    assert Eval(q) == Div(x, Finite(0.0));
    DivisionByInfinity(x, v);
    var z := Eval(Binary(Over, y, q));
    assert IsZero(z);
    assert Value(z) == 0.0;
  }

  /** Dividing by a literal zero gives no answer (JavaScript's infinity or
      NaN is not finite). */
  lemma DivisionByZeroIsNull(x: Expr)
    requires NaturalLiterals(x)
    ensures Calculate(PrintedText(Binary(Over, x, Lit(0.0)))) == None
  {
    var e := Binary(Over, x, Lit(0.0));
    CalculatePrinted(e);
    OverZeroNotFinite(x);
  }

  lemma OverZeroNotFinite(x: Expr)
    ensures Answer(Eval(Binary(Over, x, Lit(0.0)))) == None
  {
    assert Eval(Binary(Over, x, Lit(0.0))) == Div(Eval(x), Finite(0.0));
  }

  /** `x o1 y o2 z` written without parentheses around the operations is
      calculated with `*` and `/` before `+` and `-`, from the left. */
  lemma CalculateThreeOperands(x: Expr, o1: BinOp, y: Expr, o2: BinOp, z: Expr)
    requires NaturalLiterals(x) && NaturalLiterals(y) && NaturalLiterals(z)
    ensures Calculate(ThreeText(x, o1, y, o2, z)) == Answer(Eval(Grouped(x, o1, y, o2, z)))
  {
    var ts := ThreeOperands(x, o1, y, o2, z);
    PrintableThree(x, o1, y, o2, z);
    var t := ThreeText(x, o1, y, o2, z);
    assert t == Unlex(ts);
    assert |ts| > 0 by {
      ThreeOperandsLayout(x, o1, y, o2, z);
    }
    PrintedIsCalculable(ts);
    BalancedThree(x, o1, y, o2, z);
    assert Interpret(t) == Some(Grouped(x, o1, y, o2, z)) by {
      SignsFollowedThree(x, o1, y, o2, z);
      ParseWrappedThreeOperands(x, o1, y, o2, z);
    }
    CalculateReads(t, Grouped(x, o1, y, o2, z));
  }

  /** A question whose math is `a o1 b o2 c` for naturals `a`, `b`, `c`, with
      nothing else, is answered with the usual precedence. */
  lemma ExtractAndCalculateThree(a: nat, o1: BinOp, b: nat, o2: BinOp, c: nat)
    ensures var t := NatToString(a) + [OpChar(o1)] + NatToString(b) + [OpChar(o2)] + NatToString(c);
      ExtractAndCalculate(t) == Answer(Eval(Grouped(Lit(a as real), o1, Lit(b as real), o2, Lit(c as real))))
  {
    var x, y, z := Lit(a as real), Lit(b as real), Lit(c as real);
    var t := NatToString(a) + [OpChar(o1)] + NatToString(b) + [OpChar(o2)] + NatToString(c);
    PrintableThree(x, o1, y, o2, z);
    assert ThreeText(x, o1, y, o2, z) == t by {
      UnlexThree(a, o1, b, o2, c);
    }
    CalculateThreeOperands(x, o1, y, o2, z);
    ThreeQualifies(a, o1, b, o2, c);
    PrintedIsCalculable(ThreeOperands(x, o1, y, o2, z));
    ExtractWhole(t);
  }

  // ---------------------------------------------------------------------------
  // Printed texts hold no update operator

  predicate IsSign(t: Token) { t == Punct('+') || t == Punct('-') }

  /** A token an operand can start with. */
  predicate OperandStart(t: Token) { t.Number? || t == Punct('(') }

  /** Every sign in `ts` but a last one is followed by the start of an
      operand. */
  predicate SignsFollowed(ts: seq<Token>) {
    forall i :: 0 <= i < |ts| - 1 && IsSign(ts[i]) ==> OperandStart(ts[i + 1])
  }

  lemma SignsFollowedAppend(a: seq<Token>, b: seq<Token>)
    requires SignsFollowed(a) && SignsFollowed(b)
    requires |a| > 0 && |b| > 0 && IsSign(a[|a| - 1]) ==> OperandStart(b[0])
    ensures SignsFollowed(a + b)
  {
    var ab := a + b;
    forall i | 0 <= i < |ab| - 1 && IsSign(ab[i])
      ensures OperandStart(ab[i + 1])
    {
      if i + 1 < |a| {
        assert ab[i] == a[i] && ab[i + 1] == a[i + 1];
      } else if i + 1 == |a| {
        assert ab[i] == a[i] && ab[i + 1] == b[0];
      } else {
        assert ab[i] == b[i - |a|] && ab[i + 1] == b[i + 1 - |a|];
      }
    }
  }

  /** `( p c q )` keeps signs before operands when `p` ends in no sign and
      `q` starts an operand. */
  lemma SignsFollowedBracket(p: seq<Token>, c: Token, q: seq<Token>)
    requires SignsFollowed(p) && SignsFollowed(q)
    requires |p| > 0 ==> !IsSign(p[|p| - 1])
    requires |q| > 0 && OperandStart(q[0]) && !IsSign(q[|q| - 1])
    ensures SignsFollowed(Bracket(p, c, q))
  {
    BracketIsConcat(p, c, q);
    var open := [Punct('(')];
    SignsFollowedAppend(open, p);
    SignsFollowedAppend(open + p, [c]);
    SignsFollowedAppend(open + p + [c], q);
    SignsFollowedAppend(open + p + [c] + q, [Punct(')')]);
  }

  /** In a printed expression every sign is followed by an operand, and the
      last token is no sign. */
  lemma {:induction false} SignsFollowedTokens(e: Expr)
    ensures SignsFollowed(Tokens(e)) && !DoubledSign(Tokens(e))
    ensures !IsSign(Tokens(e)[|Tokens(e)| - 1])
  {
    match e
    case Lit(_) =>
    case UnaryPlus(x) =>
      SignsFollowedTokens(x);
      SignsFollowedBracket([], Punct('+'), Tokens(x));
      BracketIsConcat([], Punct('+'), Tokens(x));
    case UnaryMinus(x) =>
      SignsFollowedTokens(x);
      SignsFollowedBracket([], Punct('-'), Tokens(x));
      BracketIsConcat([], Punct('-'), Tokens(x));
    case Binary(op, l, r) =>
      SignsFollowedTokens(l);
      SignsFollowedTokens(r);
      SignsFollowedBracket(Tokens(l), Punct(OpChar(op)), Tokens(r));
      BracketIsConcat(Tokens(l), Punct(OpChar(op)), Tokens(r));
  }

  /** The same for `x o1 y o2 z` printed without parentheses. */
  lemma SignsFollowedThree(x: Expr, o1: BinOp, y: Expr, o2: BinOp, z: Expr)
    ensures !DoubledSign(ThreeOperands(x, o1, y, o2, z))
  {
    SignsFollowedTokens(x);
    SignsFollowedTokens(y);
    SignsFollowedTokens(z);
    var c1, c2 := [Punct(OpChar(o1))], [Punct(OpChar(o2))];
    SignsFollowedAppend(Tokens(x), c1);
    SignsFollowedAppend(Tokens(x) + c1, Tokens(y));
    SignsFollowedAppend(Tokens(x) + c1 + Tokens(y), c2);
    SignsFollowedAppend(Tokens(x) + c1 + Tokens(y) + c2, Tokens(z));
  }

  // ---------------------------------------------------------------------------
  // Printed texts pass the whitelist

  /** Digits and punctuators are whitelisted math characters, not whitespace. */
  lemma PrintedChar(c: char)
    requires IsAsciiDigit(c) || IsPunct(c)
    ensures IsCalcChar(c) && IsMathChar(c) && !IsWhitespace(c)
  {
  }

  lemma PrintedIsCalculable(ts: seq<Token>)
    requires Printable(ts) && |ts| > 0
    ensures var t := Unlex(ts);
      Whitelisted(t) && NoWhitespace(t) && AllMath(t)
  {
    var t := Unlex(ts);
    assert |t| > 0 by {
      assert t == TokenText(ts[0]) + Unlex(ts[1..]);
    }
    forall i | 0 <= i < |t|
      ensures IsCalcChar(t[i]) && IsMathChar(t[i]) && !IsWhitespace(t[i])
    {
      PrintedChar(t[i]);
    }
  }

  // ---------------------------------------------------------------------------
  // Printed tokens are printable

  /** The printed tokens of an expression with natural literals are
      printable. */
  lemma {:induction false} PrintableTokens(e: Expr)
    requires NaturalLiterals(e)
    ensures Printable(Tokens(e))
  {
    match e
    case Lit(v) =>
    case UnaryPlus(x) =>
      PrintableTokens(x);
      PrintableBracket([], Punct('+'), Tokens(x));
    case UnaryMinus(x) =>
      PrintableTokens(x);
      PrintableBracket([], Punct('-'), Tokens(x));
    case Binary(op, l, r) =>
      PrintableTokens(l);
      PrintableTokens(r);
      PrintableBracket(Tokens(l), Punct(OpChar(op)), Tokens(r));
  }

  /** `Printable`, one token and one neighbour pair at a time. */
  lemma PrintablePointwise(ts: seq<Token>)
    requires forall i :: 0 <= i < |ts| ==> NaturalToken(ts[i])
    requires forall i :: 0 <= i < |ts| - 1 ==> ts[i].Punct? || ts[i + 1].Punct?
    ensures Printable(ts)
  {
  }

  lemma PrintableBracket(p: seq<Token>, c: Token, q: seq<Token>)
    requires Printable(p) && Printable(q) && c.Punct? && IsPunct(c.c)
    ensures Printable(Bracket(p, c, q))
  {
    var u := Bracket(p, c, q);
    forall i | 0 <= i < |u|
      ensures NaturalToken(u[i])
    {
      if 1 <= i <= |p| {
        assert u[i] == p[i - 1];
      } else if |p| + 2 <= i < |p| + |q| + 2 {
        assert u[i] == q[i - |p| - 2];
      }
    }
    forall i | 0 <= i < |u| - 1
      ensures u[i].Punct? || u[i + 1].Punct?
    {
      if 1 <= i < |p| {
        assert u[i] == p[i - 1] && u[i + 1] == p[i];
      } else if |p| + 2 <= i < |p| + |q| + 1 {
        assert u[i] == q[i - |p| - 2] && u[i + 1] == q[i - |p| - 1];
      }
    }
    PrintablePointwise(u);
  }

  lemma {:induction false} PrintableThree(x: Expr, o1: BinOp, y: Expr, o2: BinOp, z: Expr)
    requires NaturalLiterals(x) && NaturalLiterals(y) && NaturalLiterals(z)
    ensures Printable(ThreeOperands(x, o1, y, o2, z))
  {
    PrintableOperands(x, y, z);
    OperatorIsPunct(o1);
    OperatorIsPunct(o2);
    PrintableFive(Tokens(x), Punct(OpChar(o1)), Tokens(y), Punct(OpChar(o2)), Tokens(z));
  }

  /** Every operator prints as a punctuator. */
  lemma OperatorIsPunct(op: BinOp)
    ensures IsPunct(OpChar(op))
  {
  }

  lemma PrintableOperands(x: Expr, y: Expr, z: Expr)
    requires NaturalLiterals(x) && NaturalLiterals(y) && NaturalLiterals(z)
    ensures Printable(Tokens(x)) && Printable(Tokens(y)) && Printable(Tokens(z))
  {
    PrintableTokens(x);
    PrintableTokens(y);
    PrintableTokens(z);
  }

  /** `u c v d w` with punctuators `c` and `d` between printable parts is
      printable. */
  lemma PrintableFive(u: seq<Token>, c: Token, v: seq<Token>, d: Token, w: seq<Token>)
    requires Printable(u) && Printable(v) && Printable(w)
    requires c.Punct? && IsPunct(c.c) && d.Punct? && IsPunct(d.c)
    ensures Printable(u + [c] + v + [d] + w)
  {
    PrintableThenPunct(u, c);
    PrintablePunctThen(u + [c], v);
    PrintableThenPunct(u + [c] + v, d);
    PrintablePunctThen(u + [c] + v + [d], w);
  }

  /** A printable sequence followed by a punctuator is printable. */
  lemma PrintableThenPunct(p: seq<Token>, c: Token)
    requires Printable(p) && c.Punct? && IsPunct(c.c)
    ensures Printable(p + [c])
  {
    var u := p + [c];
    forall i | 0 <= i < |u| - 1
      ensures u[i].Punct? || u[i + 1].Punct?
    {
      if i + 1 < |p| {
        assert u[i] == p[i] && u[i + 1] == p[i + 1];
      }
    }
    PrintablePointwise(u);
  }

  /** A printable sequence that ends in a punctuator, followed by a printable
      sequence, is printable. */
  lemma PrintablePunctThen(p: seq<Token>, q: seq<Token>)
    requires Printable(p) && Printable(q) && |p| > 0 && p[|p| - 1].Punct?
    ensures Printable(p + q)
  {
    var u := p + q;
    forall i | 0 <= i < |u|
      ensures NaturalToken(u[i])
    {
      if i >= |p| {
        assert u[i] == q[i - |p|];
      }
    }
    forall i | 0 <= i < |u| - 1
      ensures u[i].Punct? || u[i + 1].Punct?
    {
      if i >= |p| {
        assert u[i] == q[i - |p|] && u[i + 1] == q[i - |p| + 1];
      }
    }
    PrintablePointwise(u);
  }

  /** A part of a printable sequence is printable. */
  lemma PrintableSlice(ts: seq<Token>, lo: int, hi: int)
    requires Printable(ts) && 0 <= lo <= hi <= |ts|
    ensures Printable(ts[lo..hi])
  {
    var u := ts[lo..hi];
    forall i | 0 <= i < |u|
      ensures u[i] == ts[lo + i]
    {
    }
  }

  // ---------------------------------------------------------------------------
  // The text of printed tokens

  /** The text of joined tokens is the joined texts. */
  lemma {:induction false} UnlexAppend(a: seq<Token>, b: seq<Token>)
    requires Printable(a + b)
    ensures Printable(a) && Printable(b) && Unlex(a + b) == Unlex(a) + Unlex(b)
    decreases |a|
  {
    var ab := a + b;
    assert a == ab[..|a|] && b == ab[|a|..];
    PrintableSlice(ab, 0, |a|);
    PrintableSlice(ab, |a|, |ab|);
    if |a| > 0 {
      assert ab[1..] == a[1..] + b;
      PrintableSlice(ab, 1, |ab|);
      UnlexAppend(a[1..], b);
      assert ab[0] == a[0];
    } else {
      assert ab == b;
    }
  }

  /** The text of one token. */
  lemma UnlexOne(t: Token)
    requires NaturalToken(t)
    ensures Printable([t]) && Unlex([t]) == TokenText(t)
  {
    assert [t][1..] == [];
  }

  /** The text of `( p c q )`. */
  lemma UnlexBracket(p: seq<Token>, c: Token, q: seq<Token>)
    requires Printable(Bracket(p, c, q)) && c.Punct?
    ensures Printable(p) && Printable(q)
    ensures Unlex(Bracket(p, c, q)) == "(" + Unlex(p) + [c.c] + Unlex(q) + ")"
  {
    BracketIsConcat(p, c, q);
    var o, k := [Punct('(')], [Punct(')')];
    UnlexAppend(o + p + [c] + q, k);
    UnlexAppend(o + p + [c], q);
    UnlexAppend(o + p, [c]);
    UnlexAppend(o, p);
    UnlexOne(Punct('('));
    UnlexOne(Punct(')'));
    UnlexOne(c);
  }

  lemma UnlexThree(a: nat, o1: BinOp, b: nat, o2: BinOp, c: nat)
    requires Printable(ThreeOperands(Lit(a as real), o1, Lit(b as real), o2, Lit(c as real)))
    ensures Unlex(ThreeOperands(Lit(a as real), o1, Lit(b as real), o2, Lit(c as real)))
         == NatToString(a) + [OpChar(o1)] + NatToString(b) + [OpChar(o2)] + NatToString(c)
  {
    UnlexFive([Number(a as real)], Punct(OpChar(o1)), [Number(b as real)], Punct(OpChar(o2)), [Number(c as real)]);
    UnlexOne(Number(a as real));
    UnlexOne(Number(b as real));
    UnlexOne(Number(c as real));
  }

  /** The text of `u c v d w` for punctuators `c` and `d`. */
  lemma UnlexFive(u: seq<Token>, c: Token, v: seq<Token>, d: Token, w: seq<Token>)
    requires Printable(u + [c] + v + [d] + w) && c.Punct? && d.Punct?
    ensures Printable(u) && Printable(v) && Printable(w)
    ensures Unlex(u + [c] + v + [d] + w) == Unlex(u) + [c.c] + Unlex(v) + [d.c] + Unlex(w)
  {
    UnlexAppend(u + [c] + v + [d], w);
    UnlexAppend(u + [c] + v, [d]);
    UnlexAppend(u + [c], v);
    UnlexAppend(u, [c]);
    UnlexPunct(c);
    UnlexPunct(d);
  }

  /** The text of one punctuator. */
  lemma UnlexPunct(c: Token)
    requires c.Punct? && Printable([c])
    ensures Unlex([c]) == [c.c]
  {
    assert [c][1..] == [];
  }

  // ---------------------------------------------------------------------------
  // Printed texts are balanced

  lemma {:induction false} DepthAppend(a: string, b: string)
    ensures Depth(a + b) == Depth(a) + Depth(b)
    decreases |a|
  {
    if |a| > 0 {
      assert (a + b)[1..] == a[1..] + b;
      assert (a + b)[0] == a[0];
      DepthAppend(a[1..], b);
    } else {
      assert a + b == b;
    }
  }

  lemma BalancedAppend(a: string, b: string)
    requires Balanced(a) && Balanced(b)
    ensures Balanced(a + b)
  {
    DepthAppend(a, b);
    forall k | 0 <= k <= |a + b|
      ensures Depth((a + b)[..k]) >= 0
    {
      if k <= |a| {
        assert (a + b)[..k] == a[..k];
      } else {
        assert (a + b)[..k] == a + b[..k - |a|];
        DepthAppend(a, b[..k - |a|]);
      }
    }
  }

  lemma BalancedWrap(x: string)
    requires Balanced(x)
    ensures Balanced("(" + x + ")")
  {
    var w := "(" + x + ")";
    DepthAppend("(", x);
    DepthAppend("(" + x, ")");
    forall k | 0 <= k <= |w|
      ensures Depth(w[..k]) >= 0
    {
      if 0 < k <= |x| + 1 {
        assert w[..k] == "(" + x[..k - 1];
        DepthAppend("(", x[..k - 1]);
      } else if k == |w| {
        assert w[..k] == w;
      }
    }
  }

  /** A text without parentheses is balanced. */
  lemma NoParensBalanced(s: string)
    requires forall i :: 0 <= i < |s| ==> s[i] != '(' && s[i] != ')'
    ensures Balanced(s)
  {
    NoParensDepth(s);
    forall k | 0 <= k <= |s|
      ensures Depth(s[..k]) == 0
    {
      NoParensDepth(s[..k]);
    }
  }

  lemma {:induction false} NoParensDepth(s: string)
    requires forall i :: 0 <= i < |s| ==> s[i] != '(' && s[i] != ')'
    ensures Depth(s) == 0
    decreases |s|
  {
    if |s| > 0 {
      NoParensDepth(s[1..]);
    }
  }

  /** `( x c y )` is balanced when `x` and `y` are and `c` is no parenthesis. */
  lemma BalancedBracketText(x: string, c: char, y: string)
    requires Balanced(x) && Balanced(y) && c != '(' && c != ')'
    ensures Balanced("(" + x + [c] + y + ")")
  {
    NoParensBalanced([c]);
    BalancedAppend(x, [c]);
    BalancedAppend(x + [c], y);
    BalancedWrap(x + [c] + y);
    assert "(" + x + [c] + y + ")" == "(" + (x + [c] + y) + ")";
  }

  lemma {:induction false} BalancedPrinted(e: Expr)
    requires NaturalLiterals(e) && Printable(Tokens(e))
    ensures Balanced(Unlex(Tokens(e)))
    decreases e, 1
  {
    match e
    case Lit(v) =>
      UnlexOne(Number(v));
      NoParensBalanced(NatToString(v.Floor));
    case UnaryPlus(x) =>
      BalancedSigned(x, Punct('+'));
    case UnaryMinus(x) =>
      BalancedSigned(x, Punct('-'));
    case Binary(op, l, r) =>
      var c := Punct(OpChar(op));
      UnlexBracket(Tokens(l), c, Tokens(r));
      BalancedPrinted(l);
      BalancedPrinted(r);
      BalancedBracketText(Unlex(Tokens(l)), c.c, Unlex(Tokens(r)));
  }

  lemma {:induction false} BalancedSigned(x: Expr, c: Token)
    requires NaturalLiterals(x) && (c == Punct('+') || c == Punct('-'))
    requires Printable(Bracket([], c, Tokens(x)))
    ensures Balanced(Unlex(Bracket([], c, Tokens(x))))
    decreases x, 2
  {
    UnlexBracket([], c, Tokens(x));
    assert Unlex([]) == "";
    BalancedPrinted(x);
    assert Balanced("");
    BalancedBracketText("", c.c, Unlex(Tokens(x)));
  }

  lemma {:induction false} BalancedThree(x: Expr, o1: BinOp, y: Expr, o2: BinOp, z: Expr)
    requires NaturalLiterals(x) && NaturalLiterals(y) && NaturalLiterals(z)
    requires Printable(ThreeOperands(x, o1, y, o2, z))
    ensures Balanced(Unlex(ThreeOperands(x, o1, y, o2, z)))
  {
    var c, d := Punct(OpChar(o1)), Punct(OpChar(o2));
    UnlexFive(Tokens(x), c, Tokens(y), d, Tokens(z));
    BalancedOperands(x, y, z);
    BalancedFive(Unlex(Tokens(x)), c.c, Unlex(Tokens(y)), d.c, Unlex(Tokens(z)));
  }

  lemma BalancedOperands(x: Expr, y: Expr, z: Expr)
    requires NaturalLiterals(x) && NaturalLiterals(y) && NaturalLiterals(z)
    requires Printable(Tokens(x)) && Printable(Tokens(y)) && Printable(Tokens(z))
    ensures Balanced(Unlex(Tokens(x))) && Balanced(Unlex(Tokens(y))) && Balanced(Unlex(Tokens(z)))
  {
    BalancedPrinted(x);
    BalancedPrinted(y);
    BalancedPrinted(z);
  }

  /** `a c b d e` is balanced when `a`, `b` and `e` are and `c` and `d` are no
      parentheses. */
  lemma BalancedFive(a: string, c: char, b: string, d: char, e: string)
    requires Balanced(a) && Balanced(b) && Balanced(e)
    requires c != '(' && c != ')' && d != '(' && d != ')'
    ensures Balanced(a + [c] + b + [d] + e)
  {
    NoParensBalanced([c]);
    NoParensBalanced([d]);
    BalancedAppend(a, [c]);
    BalancedAppend(a + [c], b);
    BalancedAppend(a + [c] + b, [d]);
    BalancedAppend(a + [c] + b + [d], e);
  }

  // ---------------------------------------------------------------------------
  // A whole question of the form `a o1 b o2 c`

  /** `a o1 b ...` holds the pattern `\d+\s*[+\-*\/]\s*\d+`. */
  lemma ThreeQualifies(a: nat, o1: BinOp, b: nat, o2: BinOp, c: nat)
    ensures Qualifies(NatToString(a) + [OpChar(o1)] + NatToString(b) + [OpChar(o2)] + NatToString(c))
  {
    var da, db := NatToString(a), NatToString(b);
    var t := NatToString(a) + [OpChar(o1)] + NatToString(b) + [OpChar(o2)] + NatToString(c);
    var k := |da| - 1;
    assert t[k] == da[k] && t[k + 1] == OpChar(o1) && t[k + 2] == db[0];
    DigitOpDigit(t, k);
  }

  /** A digit, an operator and a digit in a row make a text qualify. */
  lemma DigitOpDigit(t: string, k: nat)
    requires k + 2 < |t| && IsAsciiDigit(t[k]) && IsOperator(t[k + 1]) && IsAsciiDigit(t[k + 2])
    ensures Qualifies(t)
  {
    var u := t[k..];
    assert u[1..][1..] == t[k + 2..];
    assert u[1..][1..][0] == t[k + 2];
    assert OpAfterGap(u[1..]);
    QualifiesLater(t, k);
  }

  /** A text qualifies when one of its suffixes does. */
  lemma {:induction false} QualifiesLater(t: string, k: nat)
    requires k <= |t| && Qualifies(t[k..])
    ensures Qualifies(t)
    decreases k
  {
    if k > 0 {
      assert t[1..][k - 1..] == t[k..];
      QualifiesLater(t[1..], k - 1);
    }
  }

  /** A text that is one qualifying run, with no whitespace, is extracted
      whole. */
  lemma ExtractWhole(t: string)
    requires |t| > 0 && AllMath(t) && NoWhitespace(t) && Qualifies(t)
    ensures ExtractMathExpression(t) == Some(t)
  {
    WholeCandidates(t);
    LongestOne(t);
    CleanWhole(t);
    ExtractSingle(t, t);
  }

  /** A whole math text without whitespace is its own only candidate. */
  lemma WholeCandidates(t: string)
    requires |t| > 0 && AllMath(t) && NoWhitespace(t)
    ensures TrimAll(MathRuns(t)) == [t]
  {
    WholeRun(t);
    TrimNoWhitespace(t);
  }

  /** Trimming and collapsing leave a text without whitespace alone. */
  lemma CleanWhole(t: string)
    requires NoWhitespace(t)
    ensures CollapseWhitespace(Trim(t)) == t
  {
    TrimNoWhitespace(t);
    CollapseFixpoint(t);
  }

  /** A text whose one trimmed run is `r`, a qualifying run, yields `r` cleaned. */
  lemma ExtractSingle(text: string, r: string)
    requires TrimAll(MathRuns(text)) == [r] && Longest([r]) == r && r != ""
    ensures ExtractMathExpression(text) == Some(CollapseWhitespace(Trim(r)))
  {
  }

  /** The only candidate, when it qualifies, is the longest. */
  lemma LongestOne(t: string)
    requires Qualifies(t)
    ensures Longest([t]) == t
  {
    assert [t][..0] == [];
  }

  lemma {:induction false} WholePrefix(t: string)
    requires AllMath(t)
    ensures MathPrefix(t) == |t|
    decreases |t|
  {
    if |t| > 0 {
      WholePrefix(t[1..]);
    }
  }

  lemma WholeRun(t: string)
    requires |t| > 0 && AllMath(t)
    ensures MathRuns(t) == [t]
  {
    WholePrefix(t);
    assert t[..|t|] == t;
    assert t[|t|..] == [];
  }
}
