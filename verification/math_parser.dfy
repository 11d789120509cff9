/**
  The expression grammar JavaScript applies to the tokens of
  `calculateExpression` (math-solver.ts), restricted to what the whitelist lets
  through, and its evaluation on JavaScript numbers:

    Expr    ::= Term (('+' | '-') Term)*        left-associative
    Term    ::= Unary (('*' | '/') Unary)*      left-associative
    Unary   ::= ('+' | '-') Unary | Primary
    Primary ::= Number | '(' Expr ')'

  Each parse function takes the position it starts at and returns the tree it
  read with the position after it.
*/
module MathParser {
  import opened Optional
  import opened MathLexer
  import opened JsNumber

  datatype BinOp = Plus | Minus | Times | Over

  datatype Expr =
    | Lit(value: real)
    | UnaryPlus(operand: Expr)
    | UnaryMinus(operand: Expr)
    | Binary(op: BinOp, left: Expr, right: Expr)

  function OpChar(op: BinOp): char {
    match op
    case Plus => '+'
    case Minus => '-'
    case Times => '*'
    case Over => '/'
  }

  /** The additive operator a token stands for, if any. */
  function AdditiveOp(t: Token): (r: Option<BinOp>)
    ensures r.Some? ==> (r.value == Plus || r.value == Minus) && t == Punct(OpChar(r.value))
  {
    if t == Punct('+') then Some(Plus) else if t == Punct('-') then Some(Minus) else None
  }

  /** The multiplicative operator a token stands for, if any. */
  function MultiplicativeOp(t: Token): (r: Option<BinOp>)
    ensures r.Some? ==> (r.value == Times || r.value == Over) && t == Punct(OpChar(r.value))
  {
    if t == Punct('*') then Some(Times) else if t == Punct('/') then Some(Over) else None
  }

  function ParseExpr(ts: seq<Token>, i: nat): (r: Option<(Expr, nat)>)
    requires i <= |ts|
    ensures r.Some? ==> i < r.value.1 <= |ts|
    decreases |ts| - i, 3
  {
    match ParseTerm(ts, i)
    case None => None
    case Some((left, j)) => ExprTail(ts, left, j)
  }

  /** `(('+' | '-') Term)*` after the operand `acc`. */
  function ExprTail(ts: seq<Token>, acc: Expr, j: nat): (r: Option<(Expr, nat)>)
    requires j <= |ts|
    ensures r.Some? ==> j <= r.value.1 <= |ts|
    decreases |ts| - j, 4
  {
    if j < |ts| && AdditiveOp(ts[j]).Some? then
      match ParseTerm(ts, j + 1)
      case None => None
      case Some((right, k)) => ExprTail(ts, Binary(AdditiveOp(ts[j]).value, acc, right), k)
    else Some((acc, j))
  }

  function ParseTerm(ts: seq<Token>, i: nat): (r: Option<(Expr, nat)>)
    requires i <= |ts|
    ensures r.Some? ==> i < r.value.1 <= |ts|
    decreases |ts| - i, 2
  {
    match ParseUnary(ts, i)
    case None => None
    case Some((left, j)) => TermTail(ts, left, j)
  }

  /** `(('*' | '/') Unary)*` after the operand `acc`. */
  function TermTail(ts: seq<Token>, acc: Expr, j: nat): (r: Option<(Expr, nat)>)
    requires j <= |ts|
    ensures r.Some? ==> j <= r.value.1 <= |ts|
    decreases |ts| - j, 4
  {
    if j < |ts| && MultiplicativeOp(ts[j]).Some? then
      match ParseUnary(ts, j + 1)
      case None => None
      case Some((right, k)) => TermTail(ts, Binary(MultiplicativeOp(ts[j]).value, acc, right), k)
    else Some((acc, j))
  }

  function ParseUnary(ts: seq<Token>, i: nat): (r: Option<(Expr, nat)>)
    requires i <= |ts|
    ensures r.Some? ==> i < r.value.1 <= |ts|
    decreases |ts| - i, 1
  {
    if i < |ts| && ts[i] == Punct('-') then
      match ParseUnary(ts, i + 1)
      case None => None
      case Some((e, j)) => Some((UnaryMinus(e), j))
    else if i < |ts| && ts[i] == Punct('+') then
      match ParseUnary(ts, i + 1)
      case None => None
      case Some((e, j)) => Some((UnaryPlus(e), j))
    else ParsePrimary(ts, i)
  }

  function ParsePrimary(ts: seq<Token>, i: nat): (r: Option<(Expr, nat)>)
    requires i <= |ts|
    ensures r.Some? ==> i < r.value.1 <= |ts|
    decreases |ts| - i, 0
  {
    if i == |ts| then None
    else if ts[i].Number? then Some((Lit(ts[i].value), i + 1))
    else if ts[i] == Punct('(') then
      match ParseExpr(ts, i + 1)
      case None => None
      case Some((e, k)) => if k < |ts| && ts[k] == Punct(')') then Some((e, k + 1)) else None
    else None
  }

  /** A whole token sequence read as one expression, or None for a syntax
      error (a token left over counts as one). */
  function Parse(ts: seq<Token>): Option<Expr> {
    match ParseExpr(ts, 0)
    case None => None
    case Some((e, j)) => if j == |ts| then Some(e) else None
  }

  /** The value of an expression in plain real arithmetic, where a division
      by zero anywhere leaves the expression without a value. */
  function RealValue(e: Expr): Option<real> {
    match e
    case Lit(v) => Some(v)
    case UnaryPlus(x) => RealValue(x)
    case UnaryMinus(x) => if RealValue(x).Some? then Some(-RealValue(x).value) else None
    case Binary(op, l, r) =>
      if RealValue(l).Some? && RealValue(r).Some? then RealOp(op, RealValue(l).value, RealValue(r).value) else None
  }

  /** One operation of real arithmetic; division by zero has no value. */
  function RealOp(op: BinOp, a: real, b: real): Option<real> {
    match op
    case Plus => Some(a + b)
    case Minus => Some(a - b)
    case Times => Some(a * b)
    case Over => if b == 0.0 then None else Some(a / b)
  }

  /** The value of an expression, with JavaScript's rules for zeros,
      infinities and NaN. Unary `+` is the identity on numbers. */
  function Eval(e: Expr): (r: Num)
    ensures RealValue(e).Some? ==> IsFinite(r) && Value(r) == RealValue(e).value
  {
    match e
    case Lit(v) => Finite(v)
    case UnaryPlus(x) => Eval(x)
    case UnaryMinus(x) => Negate(Eval(x))
    case Binary(op, l, r) =>
      var a, b := Eval(l), Eval(r);
      BinaryAgrees(op, a, b);
      match op
      case Plus => Add(a, b)
      case Minus => Sub(a, b)
      case Times => Mul(a, b)
      case Over => Div(a, b)
  }

  /** One JavaScript operation on finite operands gives the real result,
      except a division by zero. */
  lemma BinaryAgrees(op: BinOp, a: Num, b: Num)
    ensures IsFinite(a) && IsFinite(b) ==> match op
      case Plus => IsFinite(Add(a, b)) && Value(Add(a, b)) == Value(a) + Value(b)
      case Minus => IsFinite(Sub(a, b)) && Value(Sub(a, b)) == Value(a) - Value(b)
      case Times => IsFinite(Mul(a, b)) && Value(Mul(a, b)) == Value(a) * Value(b)
      case Over => Value(b) != 0.0 ==> IsFinite(Div(a, b)) && Value(Div(a, b)) == Value(a) / Value(b)
  {
  }

  // ---------------------------------------------------------------------------
  // Printing and reading back

  /** `( p c q )`, built index by index. */
  function Bracket(p: seq<Token>, c: Token, q: seq<Token>): (u: seq<Token>)
    ensures |u| == |p| + |q| + 3 && u[0] == Punct('(')
  {
    seq(|p| + |q| + 3, k requires 0 <= k < |p| + |q| + 3 =>
      if k == 0 then Punct('(')
      else if k <= |p| then p[k - 1]
      else if k == |p| + 1 then c
      else if k < |p| + |q| + 2 then q[k - |p| - 2]
      else Punct(')'))
  }

  lemma BracketIsConcat(p: seq<Token>, c: Token, q: seq<Token>)
    ensures Bracket(p, c, q) == [Punct('(')] + p + [c] + q + [Punct(')')]
  {
  }

  /** The tokens of an expression written with every operation
      parenthesized: `( + x )`, `( - x )`, `( l op r )`. */
  function Tokens(e: Expr): (ts: seq<Token>)
    ensures |ts| > 0 && (ts[0].Number? || ts[0] == Punct('('))
    ensures e.Lit? <==> |ts| == 1
  {
    match e
    case Lit(v) => [Number(v)]
    case UnaryPlus(x) => Bracket([], Punct('+'), Tokens(x))
    case UnaryMinus(x) => Bracket([], Punct('-'), Tokens(x))
    case Binary(op, l, r) => Bracket(Tokens(l), Punct(OpChar(op)), Tokens(r))
  }

  /** `u` sits in `ts` from position `i` on. */
  predicate SitsAt(ts: seq<Token>, i: nat, u: seq<Token>) {
    i + |u| <= |ts| && forall k {:trigger u[k]} :: 0 <= k < |u| ==> ts[i + k] == u[k]
  }

  /** `ts` holds the printed tokens of `e` from position `i` on. */
  predicate TokensAt(ts: seq<Token>, i: nat, e: Expr) {
    SitsAt(ts, i, Tokens(e))
  }

  /** Where the parts of `( p c q )` sit. */
  lemma SitsInside(ts: seq<Token>, i: nat, p: seq<Token>, c: Token, q: seq<Token>)
    requires SitsAt(ts, i, Bracket(p, c, q))
    ensures ts[i] == Punct('(') && ts[i + 1 + |p|] == c && ts[i + 2 + |p| + |q|] == Punct(')')
    ensures SitsAt(ts, i + 1, p) && SitsAt(ts, i + 2 + |p|, q)
  {
    var u := Bracket(p, c, q);
    assert ts[i + 0] == u[0];
    assert ts[i + (1 + |p|)] == u[1 + |p|];
    assert ts[i + (2 + |p| + |q|)] == u[2 + |p| + |q|];
    forall k | 0 <= k < |p|
      ensures ts[i + 1 + k] == p[k]
    {
      assert ts[i + (1 + k)] == u[1 + k];
    }
    forall k | 0 <= k < |q|
      ensures ts[i + 2 + |p| + k] == q[k]
    {
      assert ts[i + (2 + |p| + k)] == u[2 + |p| + k];
    }
  }

  /** The tails stop at the end and at `)`. */
  lemma TailsStop(ts: seq<Token>, acc: Expr, p: nat)
    requires p <= |ts| && (p == |ts| || ts[p] == Punct(')'))
    ensures TermTail(ts, acc, p) == Some((acc, p))
    ensures ExprTail(ts, acc, p) == Some((acc, p))
  {
  }

  /** A product stops before an additive operator. */
  lemma TermStops(ts: seq<Token>, acc: Expr, p: nat)
    requires p <= |ts| && (p == |ts| || MultiplicativeOp(ts[p]).None?)
    ensures TermTail(ts, acc, p) == Some((acc, p))
  {
  }

  /** A literal or a `(` starts no unary operator. */
  lemma UnaryIsPrimary(ts: seq<Token>, i: nat)
    requires i < |ts| && (ts[i].Number? || ts[i] == Punct('('))
    ensures ParseUnary(ts, i) == ParsePrimary(ts, i)
  {
  }

  /** A printed expression reads back as a primary, and so as a unary
      expression: it starts with a literal or `(`. */
  lemma {:induction false} PrimaryReadsBack(ts: seq<Token>, i: nat, e: Expr)
    requires TokensAt(ts, i, e)
    ensures ParsePrimary(ts, i) == Some((e, i + |Tokens(e)|))
    ensures ParseUnary(ts, i) == Some((e, i + |Tokens(e)|))
    decreases e, 1
  {
    assert ts[i + 0] == Tokens(e)[0];
    UnaryIsPrimary(ts, i);
    match e
    case Lit(v) =>
    case UnaryPlus(x) =>
      SignedReadsBack(ts, i, e, x);
    case UnaryMinus(x) =>
      SignedReadsBack(ts, i, e, x);
    case Binary(op, l, r) =>
      BinaryReadsBack(ts, i, op, l, r);
  }

  /** `( + x )` and `( - x )` read back. */
  lemma {:induction false} SignedReadsBack(ts: seq<Token>, i: nat, e: Expr, x: Expr)
    requires TokensAt(ts, i, e)
    requires e == UnaryPlus(x) || e == UnaryMinus(x)
    ensures ParsePrimary(ts, i) == Some((e, i + |Tokens(e)|))
    decreases e, 0
  {
    var p := i + |Tokens(x)| + 2;
    SignedLayout(ts, i, e, x);
    assert ParseUnary(ts, i + 2) == Some((x, p)) by {
      PrimaryReadsBack(ts, i + 2, x);
    }
    SignedParse(ts, i, e, x, p);
  }

  /** Where the parts of `( + x )` and `( - x )` sit. */
  lemma SignedLayout(ts: seq<Token>, i: nat, e: Expr, x: Expr)
    requires TokensAt(ts, i, e)
    requires e == UnaryPlus(x) || e == UnaryMinus(x)
    ensures |Tokens(e)| == |Tokens(x)| + 3
    ensures ts[i] == Punct('(') && ts[i + |Tokens(x)| + 2] == Punct(')')
    ensures ts[i + 1] == Punct(if e.UnaryPlus? then '+' else '-')
    ensures TokensAt(ts, i + 2, x)
  {
    SitsInside(ts, i, [], Punct(if e.UnaryPlus? then '+' else '-'), Tokens(x));
  }

  /** A sign and an operand in parentheses parse as the signed operand. */
  lemma SignedParse(ts: seq<Token>, i: nat, e: Expr, x: Expr, p: nat)
    requires e == UnaryPlus(x) || e == UnaryMinus(x)
    requires i + 2 <= p < |ts|
    requires ts[i] == Punct('(') && ts[p] == Punct(')')
    requires ts[i + 1] == Punct(if e.UnaryPlus? then '+' else '-')
    requires ParseUnary(ts, i + 2) == Some((x, p))
    ensures ParsePrimary(ts, i) == Some((e, p + 1))
  {
    assert ParseUnary(ts, i + 1) == Some((e, p));
    TailsStop(ts, e, p);
    assert ParseTerm(ts, i + 1) == Some((e, p));
    assert ParseExpr(ts, i + 1) == Some((e, p));
  }

  /** `( l op r )` reads back. */
  lemma {:induction false} BinaryReadsBack(ts: seq<Token>, i: nat, op: BinOp, l: Expr, r: Expr)
    requires TokensAt(ts, i, Binary(op, l, r))
    ensures ParsePrimary(ts, i) == Some((Binary(op, l, r), i + |Tokens(Binary(op, l, r))|))
    decreases Binary(op, l, r), 0
  {
    var q := i + 1 + |Tokens(l)|;
    var p := q + 1 + |Tokens(r)|;
    BinaryLayout(ts, i, op, l, r);
    PrimaryReadsBack(ts, i + 1, l);
    PrimaryReadsBack(ts, q + 1, r);
    BinaryInsideParens(ts, i + 1, op, l, r, q, p);
    ParenthesizedPrimary(ts, i, Binary(op, l, r), p);
  }

  /** `( e )` is a primary expression. */
  lemma ParenthesizedPrimary(ts: seq<Token>, i: nat, e: Expr, p: nat)
    requires i < p < |ts| && ts[i] == Punct('(') && ts[p] == Punct(')')
    requires ParseExpr(ts, i + 1) == Some((e, p))
    ensures ParsePrimary(ts, i) == Some((e, p + 1))
  {
  }

  /** Where the parts of `( l op r )` sit. */
  lemma BinaryLayout(ts: seq<Token>, i: nat, op: BinOp, l: Expr, r: Expr)
    requires TokensAt(ts, i, Binary(op, l, r))
    ensures |Tokens(Binary(op, l, r))| == |Tokens(l)| + |Tokens(r)| + 3
    ensures ts[i] == Punct('(') && ts[i + 2 + |Tokens(l)| + |Tokens(r)|] == Punct(')')
    ensures ts[i + 1 + |Tokens(l)|] == Punct(OpChar(op))
    ensures TokensAt(ts, i + 1, l) && TokensAt(ts, i + 2 + |Tokens(l)|, r)
  {
    SitsInside(ts, i, Tokens(l), Punct(OpChar(op)), Tokens(r));
  }

  /** `l op r )` reads back as `Binary(op, l, r)` up to the `)`. */
  lemma BinaryInsideParens(ts: seq<Token>, i: nat, op: BinOp, l: Expr, r: Expr, q: nat, p: nat)
    requires i < q < p < |ts|
    requires ParseUnary(ts, i) == Some((l, q))
    requires ts[q] == Punct(OpChar(op))
    requires ParseUnary(ts, q + 1) == Some((r, p))
    requires ts[p] == Punct(')')
    ensures ParseExpr(ts, i) == Some((Binary(op, l, r), p))
  {
    TailsStop(ts, r, p);
    TailsStop(ts, Binary(op, l, r), p);
    if op == Plus || op == Minus {
      assert TermTail(ts, l, q) == Some((l, q));
      assert ParseTerm(ts, i) == Some((l, q));
      assert ParseTerm(ts, q + 1) == Some((r, p));
      assert ExprTail(ts, l, q) == Some((Binary(op, l, r), p));
    } else {
      assert TermTail(ts, l, q) == Some((Binary(op, l, r), p));
      assert ParseTerm(ts, i) == Some((Binary(op, l, r), p));
    }
  }

  /** Every expression printed with full parentheses reads back as itself. */
  lemma ParseTokens(e: Expr)
    ensures Parse(Tokens(e)) == Some(e)
  {
    var ts := Tokens(e);
    assert TokensAt(ts, 0, e);
    PrimaryReadsBack(ts, 0, e);
    TailsStop(ts, e, |ts|);
    assert ParseTerm(ts, 0) == Some((e, |ts|));
    assert ParseExpr(ts, 0) == Some((e, |ts|));
  }

  /** `(` tokens `)`: the parentheses `calculateExpression` puts around the
      text before JavaScript reads it. */
  function Wrap(ts: seq<Token>): (w: seq<Token>)
    ensures |w| == |ts| + 2 && w[0] == Punct('(') && w[|w| - 1] == Punct(')')
  {
    seq(|ts| + 2, k requires 0 <= k < |ts| + 2 =>
      if k == 0 then Punct('(') else if k == |ts| + 1 then Punct(')') else ts[k - 1])
  }

  /** What sits in `ts` sits one place further on in `Wrap(ts)`. */
  lemma SitsInWrap(ts: seq<Token>, i: nat, u: seq<Token>)
    requires SitsAt(ts, i, u)
    ensures SitsAt(Wrap(ts), i + 1, u)
  {
    forall k | 0 <= k < |u|
      ensures Wrap(ts)[i + 1 + k] == u[k]
    {
      assert Wrap(ts)[i + 1 + k] == ts[i + k];
    }
  }

  /** The wrapped tokens hold `ts` from position 1 on. */
  lemma SitsInWrapWhole(ts: seq<Token>)
    ensures SitsAt(Wrap(ts), 1, ts)
  {
    assert SitsAt(ts, 0, ts);
    SitsInWrap(ts, 0, ts);
  }

  /** A unary expression filling the parentheses is what they hold. */
  lemma WrappedUnary(ts: seq<Token>, e: Expr)
    requires ParseUnary(Wrap(ts), 1) == Some((e, |ts| + 1))
    ensures Parse(Wrap(ts)) == Some(e)
  {
    var w := Wrap(ts);
    TailsStop(w, e, |ts| + 1);
    assert ParseTerm(w, 1) == Some((e, |ts| + 1));
    ReadWrapped(ts, e);
  }

  /** A parse of `ts` from its first token to its end is a parse of the
      wrapped tokens as one primary. */
  lemma ReadWrapped(ts: seq<Token>, e: Expr)
    requires ParseExpr(Wrap(ts), 1) == Some((e, |ts| + 1))
    ensures Parse(Wrap(ts)) == Some(e)
  {
    var w := Wrap(ts);
    TailsStop(w, e, |w|);
    assert ParsePrimary(w, 0) == Some((e, |w|));
    assert ParseUnary(w, 0) == Some((e, |w|));
    assert ParseTerm(w, 0) == Some((e, |w|));
    assert ParseExpr(w, 0) == Some((e, |w|));
  }

  /** A printed expression, wrapped, reads back as itself. */
  lemma ParseWrappedTokens(e: Expr)
    ensures Parse(Wrap(Tokens(e))) == Some(e)
  {
    var ts := Tokens(e);
    SitsInWrapWhole(ts);
    PrimaryReadsBack(Wrap(ts), 1, e);
    WrappedUnary(ts, e);
  }

  // ---------------------------------------------------------------------------
  // Precedence and associativity

  /** `*` and `/` bind tighter than `+` and `-`. */
  predicate Multiplicative(op: BinOp) { op == Times || op == Over }

  /** The tree JavaScript builds for `x o1 y o2 z`: the second operator
      groups first only when it binds tighter than the first; otherwise the
      operators group from the left. */
  function Grouped(x: Expr, o1: BinOp, y: Expr, o2: BinOp, z: Expr): Expr {
    if Multiplicative(o2) && !Multiplicative(o1) then Binary(o1, x, Binary(o2, y, z))
    else Binary(o2, Binary(o1, x, y), z)
  }

  function ThreeOperands(x: Expr, o1: BinOp, y: Expr, o2: BinOp, z: Expr): seq<Token> {
    Tokens(x) + [Punct(OpChar(o1))] + Tokens(y) + [Punct(OpChar(o2))] + Tokens(z)
  }

  /** `ts` holds `u c v d w` from position `s` on, followed by the end or a
      `)`. */
  predicate FiveAt(ts: seq<Token>, s: nat, u: seq<Token>, c: Token, v: seq<Token>, d: Token, w: seq<Token>) {
    var a := s + |u|;
    var b := a + 1 + |v|;
    var end := b + 1 + |w|;
    && end <= |ts| && (end == |ts| || ts[end] == Punct(')'))
    && SitsAt(ts, s, u) && ts[a] == c
    && SitsAt(ts, a + 1, v) && ts[b] == d
    && SitsAt(ts, b + 1, w)
  }

  /** `ts` holds `x o1 y o2 z`, printed, from position `s` on, followed by
      the end or a `)`. */
  predicate LaidOut(ts: seq<Token>, s: nat, x: Expr, o1: BinOp, y: Expr, o2: BinOp, z: Expr) {
    FiveAt(ts, s, Tokens(x), Punct(OpChar(o1)), Tokens(y), Punct(OpChar(o2)), Tokens(z))
  }

  /** Two operators between three printed operands read with the usual
      precedence and left associativity. */
  lemma ParseThreeOperands(x: Expr, o1: BinOp, y: Expr, o2: BinOp, z: Expr)
    ensures Parse(ThreeOperands(x, o1, y, o2, z)) == Some(Grouped(x, o1, y, o2, z))
  {
    var ts := ThreeOperands(x, o1, y, o2, z);
    var g := Grouped(x, o1, y, o2, z);
    assert ParseExpr(ts, 0) == Some((g, |ts|)) by {
      ThreeOperandsLayout(x, o1, y, o2, z);
      ThreeOperandsAt(ts, 0, x, o1, y, o2, z, |ts|);
    }
    TailsStop(ts, g, |ts|);
  }

  /** The same holds inside the parentheses `calculateExpression` adds. */
  lemma ParseWrappedThreeOperands(x: Expr, o1: BinOp, y: Expr, o2: BinOp, z: Expr)
    ensures Parse(Wrap(ThreeOperands(x, o1, y, o2, z))) == Some(Grouped(x, o1, y, o2, z))
  {
    var ts := ThreeOperands(x, o1, y, o2, z);
    var g := Grouped(x, o1, y, o2, z);
    WrappedThreeOperandsLayout(x, o1, y, o2, z);
    ThreeOperandsAt(Wrap(ts), 1, x, o1, y, o2, z, |ts| + 1);
    ReadWrapped(ts, g);
  }

  lemma WrappedThreeOperandsLayout(x: Expr, o1: BinOp, y: Expr, o2: BinOp, z: Expr)
    ensures LaidOut(Wrap(ThreeOperands(x, o1, y, o2, z)), 1, x, o1, y, o2, z)
    ensures |ThreeOperands(x, o1, y, o2, z)| + 1 == 1 + |Tokens(x)| + |Tokens(y)| + |Tokens(z)| + 2
  {
    ThreeOperandsLayout(x, o1, y, o2, z);
    WrappedLaidOut(ThreeOperands(x, o1, y, o2, z), x, o1, y, o2, z);
  }

  lemma ThreeOperandsLayout(x: Expr, o1: BinOp, y: Expr, o2: BinOp, z: Expr)
    ensures LaidOut(ThreeOperands(x, o1, y, o2, z), 0, x, o1, y, o2, z)
    ensures |ThreeOperands(x, o1, y, o2, z)| == |Tokens(x)| + |Tokens(y)| + |Tokens(z)| + 2
  {
    FiveParts(Tokens(x), Punct(OpChar(o1)), Tokens(y), Punct(OpChar(o2)), Tokens(z));
  }

  /** Where the parts of `u c v d w` sit. */
  lemma FiveParts(u: seq<Token>, c: Token, v: seq<Token>, d: Token, w: seq<Token>)
    ensures FiveAt(u + [c] + v + [d] + w, 0, u, c, v, d, w)
  {
    var ts := u + [c] + v + [d] + w;
    var a := |u|;
    var b := a + 1 + |v|;
    forall k | 0 <= k < |v|
      ensures ts[a + 1 + k] == v[k]
    {
    }
    forall k | 0 <= k < |w|
      ensures ts[b + 1 + k] == w[k]
    {
    }
  }

  /** Laid out inside `Wrap(ts)`, everything sits one place further on. */
  lemma WrappedLaidOut(ts: seq<Token>, x: Expr, o1: BinOp, y: Expr, o2: BinOp, z: Expr)
    requires LaidOut(ts, 0, x, o1, y, o2, z)
    requires |ts| == |Tokens(x)| + |Tokens(y)| + |Tokens(z)| + 2
    ensures LaidOut(Wrap(ts), 1, x, o1, y, o2, z)
  {
    ShiftFive(ts, Tokens(x), Punct(OpChar(o1)), Tokens(y), Punct(OpChar(o2)), Tokens(z));
  }

  /** `u c v d w` filling `ts` sits one place further on in `Wrap(ts)`. */
  lemma ShiftFive(ts: seq<Token>, u: seq<Token>, c: Token, v: seq<Token>, d: Token, w: seq<Token>)
    requires FiveAt(ts, 0, u, c, v, d, w) && |ts| == |u| + |v| + |w| + 2
    ensures FiveAt(Wrap(ts), 1, u, c, v, d, w)
  {
    var a := |u|;
    var b := a + 1 + |v|;
    SitsInWrap(ts, 0, u);
    SitsInWrap(ts, a + 1, v);
    SitsInWrap(ts, b + 1, w);
    assert Wrap(ts)[1 + a] == ts[a];
    assert Wrap(ts)[1 + b] == ts[b];
  }

  /** `x o1 y o2 z` laid out from position `s` on reads as `Grouped` says. */
  lemma ThreeOperandsAt(ts: seq<Token>, s: nat, x: Expr, o1: BinOp, y: Expr, o2: BinOp, z: Expr, end: nat)
    requires LaidOut(ts, s, x, o1, y, o2, z)
    requires end == s + |Tokens(x)| + |Tokens(y)| + |Tokens(z)| + 2
    ensures ParseExpr(ts, s) == Some((Grouped(x, o1, y, o2, z), end))
  {
    var a := s + |Tokens(x)|;
    var b := a + 1 + |Tokens(y)|;
    ThreeUnaries(ts, s, x, o1, y, o2, z);
    ThreeOperandsRead(ts, s, x, o1, y, o2, z, a, b, end);
  }

  /** The three operands of a laid-out `x o1 y o2 z` read back. */
  lemma ThreeUnaries(ts: seq<Token>, s: nat, x: Expr, o1: BinOp, y: Expr, o2: BinOp, z: Expr)
    requires LaidOut(ts, s, x, o1, y, o2, z)
    ensures var a := s + |Tokens(x)|;
      var b := a + 1 + |Tokens(y)|;
      var end := b + 1 + |Tokens(z)|;
      && s < a < b < end <= |ts|
      && (end == |ts| || ts[end] == Punct(')'))
      && ParseUnary(ts, s) == Some((x, a)) && ts[a] == Punct(OpChar(o1))
      && ParseUnary(ts, a + 1) == Some((y, b)) && ts[b] == Punct(OpChar(o2))
      && ParseUnary(ts, b + 1) == Some((z, end))
  {
    var a := s + |Tokens(x)|;
    var b := a + 1 + |Tokens(y)|;
    TokensNonEmpty(x);
    TokensNonEmpty(y);
    TokensNonEmpty(z);
    FiveAtParts(ts, s, Tokens(x), Punct(OpChar(o1)), Tokens(y), Punct(OpChar(o2)), Tokens(z));
    PrimaryReadsBack(ts, s, x);
    PrimaryReadsBack(ts, a + 1, y);
    PrimaryReadsBack(ts, b + 1, z);
  }

  /** The parts of `u c v d w` laid out from position `s` on, one by one. */
  lemma FiveAtParts(ts: seq<Token>, s: nat, u: seq<Token>, c: Token, v: seq<Token>, d: Token, w: seq<Token>)
    requires FiveAt(ts, s, u, c, v, d, w)
    ensures s + |u| + |v| + |w| + 2 <= |ts|
    ensures ts[s + |u|] == c && ts[s + |u| + 1 + |v|] == d
    ensures SitsAt(ts, s, u) && SitsAt(ts, s + |u| + 1, v) && SitsAt(ts, s + |u| + |v| + 2, w)
    ensures s + |u| + |v| + |w| + 2 == |ts| || ts[s + |u| + |v| + |w| + 2] == Punct(')')
  {
  }

  /** Every printed expression has at least one token. */
  lemma TokensNonEmpty(e: Expr)
    ensures |Tokens(e)| > 0
  {
  }

  /** `x o1 y o2 z` from position `s` up to `end`, where the operands have
      been read, groups as `Grouped` says. */
  lemma ThreeOperandsRead(ts: seq<Token>, s: nat, x: Expr, o1: BinOp, y: Expr, o2: BinOp, z: Expr,
                          a: nat, b: nat, end: nat)
    requires s < a < b < end <= |ts|
    requires end == |ts| || ts[end] == Punct(')')
    requires ParseUnary(ts, s) == Some((x, a)) && ts[a] == Punct(OpChar(o1))
    requires ParseUnary(ts, a + 1) == Some((y, b)) && ts[b] == Punct(OpChar(o2))
    requires ParseUnary(ts, b + 1) == Some((z, end))
    ensures ParseExpr(ts, s) == Some((Grouped(x, o1, y, o2, z), end))
  {
    if Multiplicative(o1) {
      MulFirst(ts, s, x, o1, y, o2, z, a, b, end);
    } else {
      AddFirst(ts, s, x, o1, y, o2, z, a, b, end);
    }
  }

  /** `x * y ? z`: the product is built first. */
  lemma MulFirst(ts: seq<Token>, s: nat, x: Expr, o1: BinOp, y: Expr, o2: BinOp, z: Expr,
                 a: nat, b: nat, end: nat)
    requires s < a < b < end <= |ts| && Multiplicative(o1)
    requires end == |ts| || ts[end] == Punct(')')
    requires ParseUnary(ts, s) == Some((x, a)) && ts[a] == Punct(OpChar(o1))
    requires ParseUnary(ts, a + 1) == Some((y, b)) && ts[b] == Punct(OpChar(o2))
    requires ParseUnary(ts, b + 1) == Some((z, end))
    ensures ParseExpr(ts, s) == Some((Grouped(x, o1, y, o2, z), end))
  {
    var xy := Binary(o1, x, y);
    TailsStop(ts, Grouped(x, o1, y, o2, z), end);
    if Multiplicative(o2) {
      assert TermTail(ts, xy, b) == Some((Binary(o2, xy, z), end));
      assert ParseTerm(ts, s) == Some((Binary(o2, xy, z), end));
    } else {
      TermStops(ts, xy, b);
      TailsStop(ts, z, end);
      assert ParseTerm(ts, s) == Some((xy, b));
      assert ParseTerm(ts, b + 1) == Some((z, end));
      assert ExprTail(ts, xy, b) == Some((Binary(o2, xy, z), end));
    }
  }

  /** `x + y ? z`: `y` joins `z` first when `?` is multiplicative. */
  lemma AddFirst(ts: seq<Token>, s: nat, x: Expr, o1: BinOp, y: Expr, o2: BinOp, z: Expr,
                 a: nat, b: nat, end: nat)
    requires s < a < b < end <= |ts| && !Multiplicative(o1)
    requires end == |ts| || ts[end] == Punct(')')
    requires ParseUnary(ts, s) == Some((x, a)) && ts[a] == Punct(OpChar(o1))
    requires ParseUnary(ts, a + 1) == Some((y, b)) && ts[b] == Punct(OpChar(o2))
    requires ParseUnary(ts, b + 1) == Some((z, end))
    ensures ParseExpr(ts, s) == Some((Grouped(x, o1, y, o2, z), end))
  {
    TermStops(ts, x, a);
    assert ParseTerm(ts, s) == Some((x, a));
    TailsStop(ts, Grouped(x, o1, y, o2, z), end);
    TailsStop(ts, z, end);
    if Multiplicative(o2) {
      var yz := Binary(o2, y, z);
      assert TermTail(ts, y, b) == Some((yz, end));
      assert ParseTerm(ts, a + 1) == Some((yz, end));
      assert ExprTail(ts, x, a) == Some((Binary(o1, x, yz), end));
    } else {
      var xy := Binary(o1, x, y);
      TermStops(ts, y, b);
      assert ParseTerm(ts, a + 1) == Some((y, b));
      assert ParseTerm(ts, b + 1) == Some((z, end));
      assert ExprTail(ts, xy, b) == Some((Binary(o2, xy, z), end));
      assert ExprTail(ts, x, a) == Some((Binary(o2, xy, z), end));
    }
  }
}
