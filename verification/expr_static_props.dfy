/** Properties of the Rust expression evaluator (expr_static/src/main.rs):
    what the printer and the parser have to do with each other, the order in
    which operators bind, the outcomes of the evaluator for each kind, and
    the inputs on which `factor` panics. */
module ExprStaticProps {
  import opened Wrappers
  import opened ExprCore
  import opened ExprStatic
  import opened ExprStaticParser

  // ---------------------------------------------------------------- characters

  /** None of the characters the printer emits around literals is whitespace
      or a sign. */
  predicate Plain(c: char) {
    !IsRustSpace(c) && c != '-'
  }

  lemma TrimStartPlain(s: string)
    requires s != [] && !IsRustSpace(s[0])
    ensures TrimStart(s) == s
  {
  }

  // ---------------------------------------------------------------- literals

  /** Scanning a run of digits followed by a non-digit (or by nothing) stops
      right after the digits. */
  lemma {:induction false} FindEndDigits(k: Kind, d: string, u: string)
    requires k != Str && AllDigits(d) && (u == [] || !IsDigit(u[0]))
    ensures FindEnd(k, d + u) == |d|
  {
    if d != [] {
      assert (d + u)[1..] == d[1..] + u;
      FindEndDigits(k, d[1..], u);
    } else {
      assert d + u == u;
    }
  }

  /** The decimal digits of a non-negative integer in range convert back to
      it. */
  lemma FromStrShowNat(k: Kind, n: nat)
    requires k != Str && InRange(k, n)
    ensures FromStr(k, ShowNat(n)) == Some(Int(n))
  {
    var d := ShowNat(n);
    assert IsDigit(d[0]);
    DigitsValueShowNat(n);
  }

  /** A non-negative integer literal of kind `k`, printed in decimal and
      followed by a non-digit or by nothing, is read back by `terminal`. */
  lemma TerminalLiteral(k: Kind, n: nat, u: string)
    requires k != Str && InRange(k, n) && (u == [] || !IsDigit(u[0]))
    ensures Terminal(k, ShowNat(n) + u) == Parsed(Some(Value(Int(n))), u)
  {
    var d := ShowNat(n);
    var s := d + u;
    assert s[0] == d[0] && IsDigit(d[0]);
    TrimStartPlain(s);
    FindEndDigits(k, d, u);
    assert s[..|d|] == d;
    assert s[|d|..] == u;
    FromStrShowNat(k, n);
  }

  /** The same literal is a whole factor. */
  lemma FactorLiteral(k: Kind, n: nat, u: string)
    requires k != Str && InRange(k, n) && (u == [] || !IsDigit(u[0]))
    ensures Factor(k, ShowNat(n) + u) == Parsed(Some(Value(Int(n))), u)
  {
    var s := ShowNat(n) + u;
    assert s[0] == ShowNat(n)[0];
    TrimStartPlain(s);
    FactorUnfold(k, s);
    OperandUnfold(k, false, s);
    TerminalLiteral(k, n, u);
  }

  // ---------------------------------------------------------------- rule steps

  /** `factor` on text that starts with `(`: the parenthesised branch. */
  lemma FactorParen(k: Kind, w: string)
    ensures Factor(k, "(" + w) == Close(false, Expression(k, w))
  {
    var s := "(" + w;
    TrimStartPlain(s);
    assert s[1..] == w;
    OperandUnfold(k, false, s);
  }

  /** A `-` in front of text on which `factor` succeeds negates the tree. */
  lemma FactorMinus(k: Kind, w: string, c: Expr, u: string)
    requires w != [] && Plain(w[0])
    requires Factor(k, w) == Parsed(Some(c), u)
    ensures Factor(k, "-" + w) == Parsed(Some(Op1(Minus, c)), u)
  {
    TrimStartPlain(w);
    var s := "-" + w;
    TrimStartPlain(s);
    assert s[1..] == w;
    FactorUnfold(k, w);
    FactorUnfold(k, s);
    OperandUnfold(k, false, w);
    OperandUnfold(k, true, w);
  }

  /** A `)` ends the loops of `term` and `expression` and closes the
      parenthesised branch of `factor`. */
  lemma CloseParen(k: Kind, e: Expr, t: string)
    requires WellKinded(k, e) && NonNegLiterals(e)
    ensures TermTail(k, e, ")" + t) == Parsed(Some(e), ")" + t)
    ensures ExprTail(k, e, ")" + t) == Parsed(Some(e), ")" + t)
    ensures Close(false, Parsed(Some(e), ")" + t)) == Parsed(Some(e), t)
  {
    TrimStartPlain(")" + t);
    assert (")" + t)[1..] == t;
  }

  /** A factor followed by `)` is a whole term and a whole expression. */
  lemma ExpressionOfFactor(k: Kind, w: string, e: Expr, t: string)
    requires Factor(k, w) == Parsed(Some(e), ")" + t)
    ensures Term(k, w) == Parsed(Some(e), ")" + t)
    ensures Expression(k, w) == Parsed(Some(e), ")" + t)
  {
    assert Good(k, Factor(k, w), w);
    CloseParen(k, e, t);
  }

  // ---------------------------------------------------------------- round trip

  /** A literal in parentheses, `(n)`, is read back as that literal. */
  lemma ParenLiteral(k: Kind, n: nat, t: string)
    requires k != Str && InRange(k, n)
    ensures Factor(k, "(" + (ShowNat(n) + (")" + t))) == Parsed(Some(Value(Int(n))), t)
  {
    var d := ShowNat(n);
    var w := d + (")" + t);
    FactorParen(k, w);
    assert w[0] == d[0] && IsDigit(d[0]);
    FactorLiteral(k, n, ")" + t);
    ExpressionOfFactor(k, w, Value(Int(n)), t);
    CloseParen(k, Value(Int(n)), t);
  }

  /** `(-x)`, where `x` reads as the factor `c`, is read back as `-c`. */
  lemma ParenNegation(k: Kind, c: Expr, x: string, t: string)
    requires WellKinded(k, c) && NonNegLiterals(c)
    requires x != [] && Plain(x[0])
    requires Factor(k, x + (")" + t)) == Parsed(Some(c), ")" + t)
    ensures Factor(k, "(" + ("-" + (x + (")" + t)))) == Parsed(Some(Op1(Minus, c)), t)
  {
    var w := x + (")" + t);
    FactorParen(k, "-" + w);
    assert w[0] == x[0];
    FactorMinus(k, w, c, ")" + t);
    ExpressionOfFactor(k, "-" + w, Op1(Minus, c), t);
    CloseParen(k, Op1(Minus, c), t);
  }

  /** Inside parentheses, `xl op xr`, where `xl` reads as `l` and `xr` as `r`,
      is read as `Op2(op, l, r)`, whichever of the two precedence levels `op`
      has. */
  lemma InfixOperands(k: Kind, op: Op2Kind, l: Expr, r: Expr, xl: string, xr: string, t: string)
    requires WellKinded(k, l) && NonNegLiterals(l) && WellKinded(k, r) && NonNegLiterals(r)
    requires Factor(k, xl + ([Op2Char(op)] + (xr + (")" + t)))) == Parsed(Some(l), [Op2Char(op)] + (xr + (")" + t)))
    requires Factor(k, xr + (")" + t)) == Parsed(Some(r), ")" + t)
    ensures Expression(k, xl + ([Op2Char(op)] + (xr + (")" + t)))) == Parsed(Some(Op2(op, l, r)), ")" + t)
  {
    var wr := xr + (")" + t);
    var u := [Op2Char(op)] + wr;
    TrimStartPlain(u);
    assert u[1..] == wr;
    if op == Mul || op == Div {
      InfixFactors(k, op, l, r, u, t);
    } else {
      InfixTerms(k, op, l, r, u, t);
    }
  }

  /** `l * r` and `l / r` are read by the loop of `term`. */
  lemma InfixFactors(k: Kind, op: Op2Kind, l: Expr, r: Expr, u: string, t: string)
    requires op == Mul || op == Div
    requires WellKinded(k, l) && NonNegLiterals(l) && WellKinded(k, r) && NonNegLiterals(r)
    requires u != [] && u[0] == Op2Char(op) && TrimStart(u) == u
    requires Factor(k, u[1..]) == Parsed(Some(r), ")" + t)
    ensures TermTail(k, l, u) == Parsed(Some(Op2(op, l, r)), ")" + t)
    ensures ExprTail(k, Op2(op, l, r), ")" + t) == Parsed(Some(Op2(op, l, r)), ")" + t)
  {
    CloseParen(k, Op2(op, l, r), t);
  }

  /** `l + r` and `l - r` are read by the loop of `expression`, after the
      loop of `term` has stopped at the operator. */
  lemma InfixTerms(k: Kind, op: Op2Kind, l: Expr, r: Expr, u: string, t: string)
    requires op == Add || op == Sub
    requires WellKinded(k, l) && NonNegLiterals(l) && WellKinded(k, r) && NonNegLiterals(r)
    requires u != [] && u[0] == Op2Char(op) && TrimStart(u) == u
    requires Factor(k, u[1..]) == Parsed(Some(r), ")" + t)
    ensures TermTail(k, l, u) == Parsed(Some(l), u)
    ensures ExprTail(k, l, u) == Parsed(Some(Op2(op, l, r)), ")" + t)
  {
    ExpressionOfFactor(k, u[1..], r, t);
    CloseParen(k, Op2(op, l, r), t);
  }

  /** The printed literal is read back. */
  lemma ReadDisplayValue(k: Kind, v: Scalar, t: string)
    requires k != Str && OfKind(k, v) && v.n >= 0
    ensures Factor(k, Display(Value(v)) + t) == Parsed(Some(Value(v)), t)
  {
    assert Display(Value(v)) + t == "(" + (ShowNat(v.n) + (")" + t));
    ParenLiteral(k, v.n, t);
  }

  /** The printed negation is read back when its printed child is. */
  lemma ReadDisplayOp1(k: Kind, c: Expr, t: string)
    requires WellKinded(k, c) && NonNegLiterals(c)
    requires Factor(k, Display(c) + (")" + t)) == Parsed(Some(c), ")" + t)
    ensures Factor(k, Display(Op1(Minus, c)) + t) == Parsed(Some(Op1(Minus, c)), t)
  {
    var x := Display(c);
    DisplayParens(c);
    assert Display(Op1(Minus, c)) + t == "(" + ("-" + (x + (")" + t)));
    ParenNegation(k, c, x, t);
  }

  lemma RegroupInfix(xl: string, c: char, xr: string, t: string)
    ensures "(" + xl + [c] + xr + ")" + t == "(" + (xl + ([c] + (xr + (")" + t))))
  {
  }

  /** The printed binary node is read back when its printed children are. */
  lemma ReadDisplayOp2(k: Kind, op: Op2Kind, l: Expr, r: Expr, t: string)
    requires WellKinded(k, l) && NonNegLiterals(l) && WellKinded(k, r) && NonNegLiterals(r)
    requires Factor(k, Display(l) + ([Op2Char(op)] + (Display(r) + (")" + t))))
      == Parsed(Some(l), [Op2Char(op)] + (Display(r) + (")" + t)))
    requires Factor(k, Display(r) + (")" + t)) == Parsed(Some(r), ")" + t)
    ensures Factor(k, Display(Op2(op, l, r)) + t) == Parsed(Some(Op2(op, l, r)), t)
  {
    var xl, xr := Display(l), Display(r);
    var u := [Op2Char(op)] + (xr + (")" + t));
    InfixOperands(k, op, l, r, xl, xr, t);
    RegroupInfix(xl, Op2Char(op), xr, t);
    FactorParen(k, xl + u);
    CloseParen(k, Op2(op, l, r), t);
  }

  /** The printer's output is read back by the parser: `factor` applied to the
      text of a tree (with any text after it) returns that tree and exactly
      the text after it. The tree must hold integers only, each non-negative,
      since integer literals are read from digits alone; for String the
      printer's `)` would be read as part of the literal. */
  lemma {:induction false} FactorDisplay(k: Kind, e: Expr, t: string)
    requires k != Str && WellKinded(k, e) && NonNegLiterals(e)
    ensures Factor(k, Display(e) + t) == Parsed(Some(e), t)
    decreases e
  {
    match e
    case Value(v) =>
      ReadDisplayValue(k, v, t);
    case Op1(Minus, c) =>
      FactorDisplay(k, c, ")" + t);
      ReadDisplayOp1(k, c, t);
    case Op2(op, l, r) =>
      FactorDisplay(k, l, [Op2Char(op)] + (Display(r) + (")" + t)));
      FactorDisplay(k, r, ")" + t);
      ReadDisplayOp2(k, op, l, r, t);
  }

  /** The end of the input ends the loops of `term` and `expression`. */
  lemma EndOfInput(k: Kind, e: Expr)
    requires WellKinded(k, e) && NonNegLiterals(e)
    ensures TermTail(k, e, []) == Parsed(Some(e), [])
    ensures ExprTail(k, e, []) == Parsed(Some(e), [])
  {
  }

  /** A line without surrounding whitespace that is one whole factor parses
      as that factor. */
  lemma ParseWholeFactor(k: Kind, s: string, e: Expr)
    requires s != [] && !IsRustSpace(s[0]) && !IsRustSpace(s[|s| - 1])
    requires Factor(k, s) == Parsed(Some(e), [])
    ensures Parse(k, s) == Tree(e)
  {
    TrimStartPlain(s);
    assert Trim(s) == s;
    assert Good(k, Factor(k, s), s);
    EndOfInput(k, e);
    assert Term(k, s) == Parsed(Some(e), []);
    assert Expression(k, s) == Parsed(Some(e), []);
  }

  /** `parse` of the printed text of a tree gives the tree back. */
  lemma ParseDisplay(k: Kind, e: Expr)
    requires k != Str && WellKinded(k, e) && NonNegLiterals(e)
    ensures Parse(k, Display(e)) == Tree(e)
  {
    var s := Display(e);
    FactorDisplay(k, e, []);
    assert s + [] == s;
    DisplayParens(e);
    ParseWholeFactor(k, s, e);
  }

  lemma DisplayParens(e: Expr)
    ensures |Display(e)| >= 2 && Display(e)[0] == '(' && Display(e)[|Display(e)| - 1] == ')'
  {
  }
}
