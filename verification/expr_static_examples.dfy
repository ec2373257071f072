/** How the Rust parser (expr_static/src/main.rs, module `parser`) reads
    particular shapes of input: the left fold of the operator loops, the two
    precedence levels, the text `parse` ignores, the inputs on which `factor`
    panics or gives no tree, and the String kind, whose literals end only at
    a space. */
module ExprStaticExamples {
  import opened Wrappers
  import opened ExprCore
  import opened ExprStatic
  import opened ExprStaticParser
  import opened ExprStaticProps

  function Lit(n: nat): Expr { Value(Int(n)) }

  // ---------------------------------------------------------------- the loops

  /** One turn of the loop of `term`: the tree read so far becomes the left
      child of the operator, the factor after the operator its right child. */
  lemma TermTailStep(k: Kind, op: Op2Kind, acc: Expr, u: string, f: Expr, rest: string)
    requires WellKinded(k, acc) && NonNegLiterals(acc) && WellKinded(k, f) && NonNegLiterals(f)
    requires u != [] && TrimStart(u) == u && MulOp(u[0]) == Some(op)
    requires Factor(k, u[1..]) == Parsed(Some(f), rest)
    ensures TermTail(k, acc, u) == TermTail(k, Op2(op, acc, f), rest)
  {
  }

  /** One turn of the loop of `expression`, likewise over terms. */
  lemma ExprTailStep(k: Kind, op: Op2Kind, acc: Expr, u: string, t: Expr, rest: string)
    requires WellKinded(k, acc) && NonNegLiterals(acc) && WellKinded(k, t) && NonNegLiterals(t)
    requires u != [] && TrimStart(u) == u && AddOp(u[0]) == Some(op)
    requires Term(k, u[1..]) == Parsed(Some(t), rest)
    ensures ExprTail(k, acc, u) == ExprTail(k, Op2(op, acc, t), rest)
  {
  }

  /** The loops stop, leaving the tree as it is, at the end of the text or at
      a character that is not one of their operators. */
  lemma TailsStop(k: Kind, acc: Expr, u: string)
    requires WellKinded(k, acc) && NonNegLiterals(acc)
    requires TrimStart(u) == u && (u == [] || MulOp(u[0]).None?)
    ensures TermTail(k, acc, u) == Parsed(Some(acc), u)
    ensures u == [] || AddOp(u[0]).None? ==> ExprTail(k, acc, u) == Parsed(Some(acc), u)
  {
  }

  /** `term` is its first factor followed by the loop. */
  lemma TermOf(k: Kind, s: string, f: Expr, u: string)
    requires Factor(k, s) == Parsed(Some(f), u)
    ensures WellKinded(k, f) && NonNegLiterals(f)
    ensures Term(k, s) == TermTail(k, f, u)
  {
    assert Good(k, Factor(k, s), s);
  }

  /** `expression` is its first term followed by the loop. */
  lemma ExpressionOf(k: Kind, s: string, t: Expr, u: string)
    requires Term(k, s) == Parsed(Some(t), u)
    ensures WellKinded(k, t) && NonNegLiterals(t)
    ensures Expression(k, s) == ExprTail(k, t, u)
  {
    assert Good(k, Term(k, s), s);
  }

  /** `parse` of a line without surrounding whitespace keeps the tree of
      `expression`. */
  lemma ParseOf(k: Kind, line: string, r: Parsed)
    requires Trim(line) == line && Expression(k, line) == r
    ensures r.Panicked? ==> Parse(k, line) == Abort
    ensures r.Parsed? && r.e.None? ==> Parse(k, line) == NoTree
    ensures r.Parsed? && r.e.Some? ==> Parse(k, line) == Tree(r.e.value)
  {
  }

  /** A literal followed by `+`, `-` or nothing is a whole term. */
  lemma TermLiteral(k: Kind, n: nat, u: string)
    requires k != Str && InRange(k, n)
    requires u == [] || AddOp(u[0]).Some?
    ensures Term(k, ShowNat(n) + u) == Parsed(Some(Lit(n)), u)
  {
    FactorLiteral(k, n, u);
    TermOf(k, ShowNat(n) + u, Lit(n), u);
    if u != [] {
      TrimStartPlain(u);
    }
    TailsStop(k, Lit(n), u);
  }

  /** A line with no whitespace at either end is left as it is by `trim`. */
  lemma TrimPlain(s: string)
    requires s != [] && !IsRustSpace(s[0]) && !IsRustSpace(s[|s| - 1])
    ensures Trim(s) == s
  {
    TrimStartPlain(s);
  }

  // ---------------------------------------------------------------- examples

  /** Five pieces of text joined from the right are the same text joined from
      the left. */
  lemma Regroup(sa: string, p: string, sb: string, q: string, sc: string)
    ensures sa + (p + (sb + (q + sc))) == sa + p + sb + q + sc
  {
  }

  /** Operators of one level fold to the left: `a-b-c` is `(a-b)-c`. */
  lemma LeftAssociative(k: Kind, a: nat, b: nat, c: nat)
    requires k != Str && InRange(k, a) && InRange(k, b) && InRange(k, c)
    ensures Parse(k, ShowNat(a) + "-" + ShowNat(b) + "-" + ShowNat(c))
      == Tree(Op2(Sub, Op2(Sub, Lit(a), Lit(b)), Lit(c)))
  {
    var sa, sb, sc := ShowNat(a), ShowNat(b), ShowNat(c);
    var u2 := "-" + sc;
    var u1 := "-" + (sb + u2);
    var line := sa + u1;
    Regroup(sa, "-", sb, "-", sc);
    assert u1[|u1| - 1] == sc[|sc| - 1];
    LiteralLine(sa, u1, sc);
    assert u1[1..] == sb + u2;
    ParseDifferences(k, a, b, c, u1, u2, line);
  }

  lemma ParseDifferences(k: Kind, a: nat, b: nat, c: nat, u1: string, u2: string, line: string)
    requires k != Str && InRange(k, a) && InRange(k, b) && InRange(k, c)
    requires u2 == "-" + ShowNat(c) && u1 == "-" + (ShowNat(b) + u2)
    requires line == ShowNat(a) + u1 && Trim(line) == line
    requires u1[1..] == ShowNat(b) + u2
    ensures Parse(k, line) == Tree(Op2(Sub, Op2(Sub, Lit(a), Lit(b)), Lit(c)))
  {
    assert u2[1..] == ShowNat(c) + [];
    TermLiteral(k, a, u1);
    TermLiteral(k, b, u2);
    TermLiteral(k, c, []);
    TrimStartPlain(u1);
    TrimStartPlain(u2);
    ExprTailStep(k, Sub, Lit(a), u1, Lit(b), u2);
    ExprTailStep(k, Sub, Op2(Sub, Lit(a), Lit(b)), u2, Lit(c), []);
    TailsStop(k, Op2(Sub, Op2(Sub, Lit(a), Lit(b)), Lit(c)), []);
    ExpressionOf(k, line, Lit(a), u1);
    ParseOf(k, line, Expression(k, line));
  }

  /** A line made of digits around other text has no whitespace to trim. */
  lemma LiteralLine(d: string, u: string, e: string)
    requires d != [] && AllDigits(d) && e != [] && AllDigits(e)
    requires u != [] && u[|u| - 1] == e[|e| - 1]
    ensures Trim(d + u) == d + u
  {
    var line := d + u;
    assert line[0] == d[0] && line[|line| - 1] == u[|u| - 1];
    TrimPlain(line);
  }

  /** `*` binds tighter than `+`: `a+b*c` is `a+(b*c)`. */
  lemma MulBindsTighter(k: Kind, a: nat, b: nat, c: nat)
    requires k != Str && InRange(k, a) && InRange(k, b) && InRange(k, c)
    ensures Parse(k, ShowNat(a) + "+" + ShowNat(b) + "*" + ShowNat(c))
      == Tree(Op2(Add, Lit(a), Op2(Mul, Lit(b), Lit(c))))
  {
    var sa, sb, sc := ShowNat(a), ShowNat(b), ShowNat(c);
    var u2 := "*" + sc;
    var u1 := "+" + (sb + u2);
    var line := sa + u1;
    Regroup(sa, "+", sb, "*", sc);
    LiteralLine(sa, u1, sc);
    assert u1[1..] == sb + u2;
    ParseSumOfProduct(k, a, b, c, u1, u2, line);
  }

  lemma ParseSumOfProduct(k: Kind, a: nat, b: nat, c: nat, u1: string, u2: string, line: string)
    requires k != Str && InRange(k, a) && InRange(k, b) && InRange(k, c)
    requires u2 == "*" + ShowNat(c) && u1 == "+" + (ShowNat(b) + u2)
    requires line == ShowNat(a) + u1 && Trim(line) == line
    requires u1[1..] == ShowNat(b) + u2
    ensures Parse(k, line) == Tree(Op2(Add, Lit(a), Op2(Mul, Lit(b), Lit(c))))
  {
    TermLiteral(k, a, u1);
    ProductTerm(k, b, c, ShowNat(b), u2);
    TrimStartPlain(u1);
    ExprTailStep(k, Add, Lit(a), u1, Op2(Mul, Lit(b), Lit(c)), []);
    TailsStop(k, Op2(Add, Lit(a), Op2(Mul, Lit(b), Lit(c))), []);
    ExpressionOf(k, line, Lit(a), u1);
    ParseOf(k, line, Expression(k, line));
  }

  /** `b*c` at the end of the text is one term. */
  lemma ProductTerm(k: Kind, b: nat, c: nat, sb: string, u: string)
    requires k != Str && InRange(k, b) && InRange(k, c)
    requires sb == ShowNat(b) && u == "*" + ShowNat(c)
    ensures Term(k, sb + u) == Parsed(Some(Op2(Mul, Lit(b), Lit(c))), [])
  {
    assert u[1..] == ShowNat(c) + [];
    FactorLiteral(k, b, u);
    FactorLiteral(k, c, []);
    TermOf(k, sb + u, Lit(b), u);
    TrimStartPlain(u);
    TermTailStep(k, Mul, Lit(b), u, Lit(c), []);
    TailsStop(k, Op2(Mul, Lit(b), Lit(c)), []);
  }

  /** `2+3*4` evaluates to 14, not to 20. */
  lemma MulBindsTighterValue()
    ensures Eval(I32, Op2(Add, Lit(2), Op2(Mul, Lit(3), Lit(4)))) == Val(Int(14))
  {
  }

  /** `parse` ignores what follows the expression: a literal followed by text
      that starts with neither a digit nor an operator (`12x`, `2 3`) parses
      as the literal alone. */
  lemma TrailingTextIgnored(k: Kind, n: nat, u: string)
    requires k != Str && InRange(k, n)
    requires u != [] && !IsDigit(u[0]) && !IsRustSpace(u[|u| - 1])
    requires TrimStart(u) != [] && MulOp(TrimStart(u)[0]).None? && AddOp(TrimStart(u)[0]).None?
    ensures Parse(k, ShowNat(n) + u) == Tree(Lit(n))
  {
    var line := ShowNat(n) + u;
    assert line[0] == ShowNat(n)[0] && line[|line| - 1] == u[|u| - 1];
    TrimPlain(line);
    FactorLiteral(k, n, u);
    TermOf(k, line, Lit(n), u);
    var v := TrimStart(u);
    TrimStartPlain(v);
    StopAfterSpace(k, Lit(n), u, v);
    TailsStop(k, Lit(n), v);
    ExpressionOf(k, line, Lit(n), v);
    ParseOf(k, line, Expression(k, line));
  }

  /** The loop of `term` skips whitespace before it looks for an operator. */
  lemma StopAfterSpace(k: Kind, acc: Expr, u: string, v: string)
    requires WellKinded(k, acc) && NonNegLiterals(acc)
    requires v == TrimStart(u) && v != [] && MulOp(v[0]).None?
    ensures TermTail(k, acc, u) == Parsed(Some(acc), v)
  {
  }

  /** A `-` before an operand that `terminal` rejects (`-x`, `--5`) panics. */
  lemma MinusBeforeBadOperandPanics(k: Kind, w: string)
    requires k != Str
    requires w != [] && !IsDigit(w[0]) && !IsRustSpace(w[0]) && w[0] != '('
    requires !IsRustSpace(w[|w| - 1])
    ensures Parse(k, "-" + w) == Abort
  {
    var line := "-" + w;
    TrimPlain(line);
    BadOperand(k, true, w);
    MinusFactor(k, w);
    ParseOfPanickedFactor(k, line);
  }

  /** `terminal` rejects an operand that does not start with a digit, and
      `factor` then panics under a `-` and gives no tree without one. */
  lemma BadOperand(k: Kind, minus: bool, w: string)
    requires k != Str
    requires w != [] && !IsDigit(w[0]) && !IsRustSpace(w[0]) && w[0] != '('
    ensures Operand(k, minus, w) == if minus then Panicked else Parsed(None, w)
  {
    TrimStartPlain(w);
    OperandUnfold(k, minus, w);
  }

  /** `factor` on `-w` is the negated operand `w`. */
  lemma MinusFactor(k: Kind, w: string)
    requires w != [] && !IsRustSpace(w[0])
    ensures Factor(k, "-" + w) == Operand(k, true, w)
  {
    var line := "-" + w;
    TrimStartPlain(line);
    TrimStartPlain(w);
    assert line[1..] == w;
    FactorUnfold(k, line);
  }

  /** A panic in the first factor is a panic of the whole line. */
  lemma ParseOfPanickedFactor(k: Kind, line: string)
    requires Trim(line) == line && Factor(k, line) == Panicked
    ensures Parse(k, line) == Abort
  {
    assert Term(k, line) == Panicked;
    assert Expression(k, line) == Panicked;
  }

  /** A `-` before a parenthesis whose expression fails (`-(x`) panics. */
  lemma MinusBeforeBadGroupPanics(k: Kind, w: string)
    requires k != Str
    requires w != [] && !IsDigit(w[0]) && !IsRustSpace(w[0]) && w[0] != '(' && w[0] != '-'
    requires !IsRustSpace(w[|w| - 1])
    ensures Parse(k, "-(" + w) == Abort
  {
    var g := "(" + w;
    var line := "-" + g;
    assert line == "-(" + w;
    TrimPlain(line);
    MinusFactor(k, g);
    assert g[1..] == w;
    OperandUnfold(k, true, g);
    BadOperand(k, false, w);
    FailedExpression(k, w);
    ParseOfPanickedFactor(k, line);
  }

  /** A first factor that gives no tree, without a panic, makes the whole
      expression give no tree. */
  lemma FailedExpression(k: Kind, w: string)
    requires w != [] && !IsRustSpace(w[0]) && w[0] != '-'
    requires Operand(k, false, w) == Parsed(None, w)
    ensures Expression(k, w) == Parsed(None, w)
  {
    TrimStartPlain(w);
    FactorUnfold(k, w);
  }

  /** A lone `-` gives no tree, of any kind: there is no operand to negate,
      and `factor` returns before the `unwrap`. */
  lemma LoneMinus(k: Kind)
    ensures Parse(k, "-") == NoTree
  {
    TrimPlain("-");
    FactorUnfold(k, "-");
  }

  /** A negated parenthesis that is never closed (`-(1`) gives no tree:
      the missing `)` returns before the `unwrap`. */
  lemma MinusBeforeUnclosedGroup(k: Kind, n: nat)
    requires k != Str && InRange(k, n)
    ensures Parse(k, "-(" + ShowNat(n)) == NoTree
  {
    var d := ShowNat(n);
    var g := "(" + d;
    var line := "-" + g;
    assert line == "-(" + d;
    assert line[|line| - 1] == d[|d| - 1];
    TrimPlain(line);
    MinusFactor(k, g);
    assert g[1..] == d + [];
    OperandUnfold(k, true, g);
    TermLiteral(k, n, []);
    TailsStop(k, Lit(n), []);
    ExpressionOf(k, d + [], Lit(n), []);
    assert Factor(k, line) == Parsed(None, []);
    ParseOfFailedFactor(k, line);
  }

  /** A first factor that gives no tree makes the line give no tree. */
  lemma ParseOfFailedFactor(k: Kind, line: string)
    requires Trim(line) == line && Factor(k, line).Parsed? && Factor(k, line).e.None?
    ensures Parse(k, line) == NoTree
  {
    assert Term(k, line) == Parsed(None, line);
    assert Expression(k, line) == Parsed(None, line);
  }

  // ---------------------------------------------------------------- String

  predicate NoSpace(w: string) {
    forall i :: 0 <= i < |w| ==> !IsRustSpace(w[i])
  }

  /** For String a literal ends only at a space, so text without whitespace
      that starts with neither `-` nor `(` is a single literal, operators and
      parentheses included (`a+b`). */
  lemma StrSingleLiteral(w: string)
    requires w != [] && NoSpace(w) && w[0] != '-' && w[0] != '('
    ensures Expression(Str, w) == Parsed(Some(Value(Text(w))), [])
    ensures Parse(Str, w) == Tree(Value(Text(w)))
  {
    var e := Value(Text(w));
    TrimPlain(w);
    StrLiteralFactor(w);
    TermOf(Str, w, e, []);
    TailsStop(Str, e, []);
    ExpressionOf(Str, w, e, []);
    ParseOf(Str, w, Expression(Str, w));
  }

  lemma StrLiteralFactor(w: string)
    requires w != [] && NoSpace(w) && w[0] != '-' && w[0] != '('
    ensures Factor(Str, w) == Parsed(Some(Value(Text(w))), [])
  {
    TrimStartPlain(w);
    FindEndNoSpace(w);
    assert w[..|w|] == w && w[|w|..] == [];
    FactorUnfold(Str, w);
    OperandUnfold(Str, false, w);
  }

  lemma {:induction false} FindEndNoSpace(w: string)
    requires NoSpace(w)
    ensures FindEnd(Str, w) == |w|
  {
    if w != [] {
      assert NoSpace(w[1..]) by {
        forall i | 0 <= i < |w[1..]| ensures !IsRustSpace(w[1..][i]) {
          assert w[1..][i] == w[i + 1];
        }
      }
      FindEndNoSpace(w[1..]);
    }
  }

  /** The printer does not produce text the String parser reads back: in
      `(v)` the literal runs on to the `)`, and the parenthesis is then never
      closed. */
  lemma StrDisplayNotReadBack(v: string)
    requires NoSpace(v) && (v == [] || (v[0] != '-' && v[0] != '('))
    ensures Parse(Str, Display(Value(Text(v)))) == NoTree
  {
    var w := v + ")";
    var line := "(" + w;
    assert Display(Value(Text(v))) == line;
    NoSpaceClosed(v);
    assert line[1..] == w;
    StrSingleLiteral(w);
    OpenGroupFails(line, w);
  }

  lemma NoSpaceClosed(v: string)
    requires NoSpace(v)
    ensures NoSpace(v + ")")
  {
    var w := v + ")";
    forall i | 0 <= i < |w| ensures !IsRustSpace(w[i]) {
      if i < |v| { assert w[i] == v[i]; }
    }
  }

  /** `(w`, where `w` is one whole String literal, is never closed. */
  lemma OpenGroupFails(line: string, w: string)
    requires w != [] && NoSpace(w) && line == "(" + w && line[1..] == w
    requires Expression(Str, w) == Parsed(Some(Value(Text(w))), [])
    ensures Parse(Str, line) == NoTree
  {
    TrimPlain(line);
    FactorUnfold(Str, line);
    OperandUnfold(Str, false, line);
    ParseOfFailedFactor(Str, line);
  }
}
