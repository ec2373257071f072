/** How the C++ parsers (expr_static_cpp/expr_static.cpp and
    expr_cpp/expr.cpp, namespace `parser`) read particular shapes of input:
    literals, the left fold of the operator loops, the rejection of trailing
    text by `parse`, and a `-` before an operand that `terminal` cannot
    read. */
module CppExamples {
  import opened Wrappers
  import opened ExprCore
  import opened CppStream
  import opened CppExpr
  import opened CppParser

  function Lit(n: nat): Ptr { Leaf(Int(n)) }

  // ---------------------------------------------------------------- the stream

  lemma SkipPlain(s: string)
    requires s != [] && !IsCSpace(s[0])
    ensures SkipSpace(s) == s
  {
  }

  /** A character that is not whitespace at the front of a usable stream is
      the next one extracted, and `unget` restores the stream. */
  lemma NextChar(s: string)
    requires s != [] && !IsCSpace(s[0])
    ensures ReadChar(In(s, true)) == Read(Some(s[0]), In(s[1..], true))
    ensures PutBack(In(s[1..], true), s[0]) == In(s, true)
  {
    SkipPlain(s);
    assert [s[0]] + s[1..] == s;
  }

  /** The digit scan of an integer extraction stops right after the
      digits. */
  lemma {:induction false} SpanDigits(k: Kind, d: string, u: string)
    requires k != Str && AllDigits(d) && (u == [] || !IsDigit(u[0]))
    ensures Span(k, d + u) == |d|
  {
    if d != [] {
      assert (d + u)[1..] == d[1..] + u;
      SpanDigits(k, d[1..], u);
    } else {
      assert d + u == u;
    }
  }

  // ---------------------------------------------------------------- literals

  /** An unsigned run of digits at the front of a usable stream, whose value
      `m` the kind can hold, is extracted whole. */
  lemma ReadDigits(k: Kind, t: string, i: nat, m: nat)
    requires k != Str && t != [] && IsDigit(t[0]) && Span(k, t) == i
    requires AllDigits(t[..i]) && DigitsValue(t[..i]) == m && InRange(k, m)
    ensures ReadValue(k, In(t, true)) == Read(Some(Int(m)), In(t[i..], true))
  {
    SkipPlain(t);
    ConvertInRange(k, m);
    assert !(t[0] == '+' || t[0] == '-');
  }

  /** A magnitude the kind can hold converts to itself. */
  lemma ConvertInRange(k: Kind, m: nat)
    requires k != Str && InRange(k, m)
    ensures Convert(k, false, m) == Some(m)
  {
    if k == U32 {
      assert WrapU32(m) == m;
    }
  }

  /** A non-negative literal of the kind, followed by a non-digit or by
      nothing, is read by `terminal`. */
  lemma TerminalLiteral(k: Kind, n: nat, u: string)
    requires k != Str && InRange(k, n) && (u == [] || !IsDigit(u[0]))
    ensures Terminal(k, In(ShowNat(n) + u, true)) == Got(Lit(n), In(u, true))
  {
    var d := ShowNat(n);
    var s := d + u;
    assert s[0] == d[0];
    SpanDigits(k, d, u);
    assert s[..|d|] == d;
    assert s[|d|..] == u;
    DigitsValueShowNat(n);
    ReadDigits(k, s, |d|, n);
  }

  /** The same literal is a whole factor, in both programs. */
  lemma FactorLiteral(k: Kind, v: Variant, n: nat, u: string)
    requires k != Str && InRange(k, n) && (u == [] || !IsDigit(u[0]))
    ensures Factor(k, v, In(ShowNat(n) + u, true)) == Got(Lit(n), In(u, true))
  {
    var s := ShowNat(n) + u;
    assert s[0] == ShowNat(n)[0];
    NextChar(s);
    TerminalLiteral(k, n, u);
    assert Operand(k, v, false, In(s, true)) == Got(Lit(n), In(u, true));
  }

  // ---------------------------------------------------------------- the loops

  /** The loops stop at a character that is not one of their operators, and
      put it back. */
  lemma TailsStop(k: Kind, v: Variant, acc: Ptr, u: string)
    requires Shape(k, v, acc)
    requires u != [] && !IsCSpace(u[0]) && MulOp(u[0]).None?
    ensures TermTail(k, v, acc, In(u, true)) == Got(acc, In(u, true))
    ensures AddOp(u[0]).None? ==> ExprTail(k, v, acc, In(u, true)) == Got(acc, In(u, true))
  {
    NextChar(u);
  }

  /** At the end of the input the loops stop too, and the stream fails. */
  lemma TailsAtEnd(k: Kind, v: Variant, acc: Ptr, ok: bool)
    requires Shape(k, v, acc)
    ensures TermTail(k, v, acc, In([], ok)) == Got(acc, In([], false))
    ensures ExprTail(k, v, acc, In([], ok)) == Got(acc, In([], false))
  {
  }

  /** One turn of the loop of `term`: the tree read so far becomes the left
      child of the operator node, the next factor its right child. */
  lemma TermTailStep(k: Kind, v: Variant, op: Op2Kind, acc: Ptr, u: string, f: Ptr, st: In)
    requires Shape(k, v, acc) && u != [] && !IsCSpace(u[0]) && MulOp(u[0]) == Some(op)
    requires Factor(k, v, In(u[1..], true)) == Got(f, st) && f != Nil
    ensures TermTail(k, v, acc, In(u, true)) == TermTail(k, v, Bin(op, acc, f), st)
  {
    NextChar(u);
  }

  /** One turn of the loop of `expression`, likewise over terms. */
  lemma ExprTailStep(k: Kind, v: Variant, op: Op2Kind, acc: Ptr, u: string, t: Ptr, st: In)
    requires Shape(k, v, acc) && u != [] && !IsCSpace(u[0]) && AddOp(u[0]) == Some(op)
    requires Term(k, v, In(u[1..], true)) == Got(t, st) && t != Nil
    ensures ExprTail(k, v, acc, In(u, true)) == ExprTail(k, v, Bin(op, acc, t), st)
  {
    NextChar(u);
  }

  /** `term` is its first factor followed by the loop. */
  lemma TermOf(k: Kind, v: Variant, st: In, f: Ptr, st': In)
    requires Factor(k, v, st) == Got(f, st') && f != Nil
    ensures Shape(k, v, f) && Term(k, v, st) == TermTail(k, v, f, st')
  {
    assert Good(k, v, Factor(k, v, st), st);
  }

  /** `expression` is its first term followed by the loop. */
  lemma ExpressionOf(k: Kind, v: Variant, st: In, t: Ptr, st': In)
    requires Term(k, v, st) == Got(t, st') && t != Nil
    ensures Shape(k, v, t) && Expression(k, v, st) == ExprTail(k, v, t, st')
  {
    assert Good(k, v, Term(k, v, st), st);
  }

  /** A literal followed by `+`, `-` or nothing is a whole term; at the end
      of the input the stream has failed. */
  lemma TermLiteral(k: Kind, v: Variant, n: nat, u: string)
    requires k != Str && InRange(k, n) && (u == [] || AddOp(u[0]).Some?)
    ensures Term(k, v, In(ShowNat(n) + u, true)) == Got(Lit(n), In(u, u != []))
  {
    FactorLiteral(k, v, n, u);
    TermOf(k, v, In(ShowNat(n) + u, true), Lit(n), In(u, true));
    if u == [] {
      TailsAtEnd(k, v, Lit(n), true);
    } else {
      TailsStop(k, v, Lit(n), u);
    }
  }

  // ---------------------------------------------------------------- examples

  /** `parse` rejects what follows a complete expression: a literal followed
      by text that starts with neither a digit, whitespace nor an operator
      (`12x`) gives no tree. */
  lemma TrailingTextRejected(k: Kind, v: Variant, n: nat, u: string)
    requires k != Str && InRange(k, n)
    requires u != [] && !IsDigit(u[0]) && !IsCSpace(u[0])
    requires MulOp(u[0]).None? && AddOp(u[0]).None?
    ensures Parse(k, v, ShowNat(n) + u) == NoTree
  {
    var st := In(ShowNat(n) + u, true);
    FactorLiteral(k, v, n, u);
    TermOf(k, v, st, Lit(n), In(u, true));
    TailsStop(k, v, Lit(n), u);
    ExpressionOf(k, v, st, Lit(n), In(u, true));
    NextChar(u);
  }

  /** Operators of one level fold to the left: `a-b-c` is `(a-b)-c`. */
  lemma LeftAssociative(k: Kind, v: Variant, a: nat, b: nat, c: nat)
    requires k != Str && InRange(k, a) && InRange(k, b) && InRange(k, c)
    ensures Parse(k, v, ShowNat(a) + "-" + ShowNat(b) + "-" + ShowNat(c))
         == Tree(Bin(Sub, Bin(Sub, Lit(a), Lit(b)), Lit(c)))
  {
    var u2 := "-" + ShowNat(c);
    var u1 := "-" + ShowNat(b) + u2;
    var line := ShowNat(a) + u1;
    assert line == ShowNat(a) + "-" + ShowNat(b) + "-" + ShowNat(c);
    FoldDifferences(k, v, a, b, c, u1, u2, line);
  }

  lemma FoldDifferences(k: Kind, v: Variant, a: nat, b: nat, c: nat, u1: string, u2: string, line: string)
    requires k != Str && InRange(k, a) && InRange(k, b) && InRange(k, c)
    requires u2 == "-" + ShowNat(c) && u1 == "-" + ShowNat(b) + u2 && line == ShowNat(a) + u1
    ensures Parse(k, v, line) == Tree(Bin(Sub, Bin(Sub, Lit(a), Lit(b)), Lit(c)))
  {
    var ab := Bin(Sub, Lit(a), Lit(b));
    assert Shape(k, v, Lit(a)) && Shape(k, v, Lit(b));
    FirstDifference(k, v, a, b, ab, u1, u2, line);
    LastDifference(k, v, ab, c, u2);
    ParseOfWhole(k, v, line, Bin(Sub, ab, Lit(c)));
  }

  /** `a-b` followed by `u`: the loop of `expression` goes on with `(a-b)`. */
  lemma FirstDifference(k: Kind, v: Variant, a: nat, b: nat, ab: Ptr, u1: string, u: string, line: string)
    requires k != Str && InRange(k, a) && InRange(k, b)
    requires ab == Bin(Sub, Lit(a), Lit(b)) && Shape(k, v, ab)
    requires u != [] && AddOp(u[0]).Some? && u1 == "-" + ShowNat(b) + u && line == ShowNat(a) + u1
    ensures Expression(k, v, In(line, true)) == ExprTail(k, v, ab, In(u, true))
  {
    TermLiteral(k, v, a, u1);
    ExpressionOf(k, v, In(line, true), Lit(a), In(u1, true));
    SecondTerm(k, v, b, u1, u);
    ExprTailStep(k, v, Sub, Lit(a), u1, Lit(b), In(u, true));
  }

  lemma SecondTerm(k: Kind, v: Variant, b: nat, u1: string, u: string)
    requires k != Str && InRange(k, b)
    requires u != [] && AddOp(u[0]).Some? && u1 == "-" + ShowNat(b) + u
    ensures u1 != [] && Term(k, v, In(u1[1..], true)) == Got(Lit(b), In(u, true))
  {
    assert u1[1..] == ShowNat(b) + u;
    TermLiteral(k, v, b, u);
  }

  /** An expression that uses up the input is what `parse` gives. */
  lemma ParseOfWhole(k: Kind, v: Variant, line: string, t: Ptr)
    requires Expression(k, v, In(line, true)) == Got(t, In([], false)) && t != Nil
    ensures Parse(k, v, line) == Tree(t)
  {
  }

  /** `-c` at the end of the input completes the fold. */
  lemma LastDifference(k: Kind, v: Variant, acc: Ptr, c: nat, u: string)
    requires k != Str && InRange(k, c) && Shape(k, v, acc) && u == "-" + ShowNat(c)
    ensures ExprTail(k, v, acc, In(u, true)) == Got(Bin(Sub, acc, Lit(c)), In([], false))
  {
    assert u[1..] == ShowNat(c) + [];
    TermLiteral(k, v, c, []);
    ExprTailStep(k, v, Sub, acc, u, Lit(c), In([], false));
    TailsAtEnd(k, v, Bin(Sub, acc, Lit(c)), false);
  }

  /** Once the stream has failed the loops stop. */
  lemma FailedTails(k: Kind, v: Variant, acc: Ptr, w: string)
    requires Shape(k, v, acc)
    ensures TermTail(k, v, acc, In(w, false)) == Got(acc, In(w, false))
    ensures ExprTail(k, v, acc, In(w, false)) == Got(acc, In(w, false))
  {
  }

  /** A term that leaves a failed stream is the whole expression, and
      `parse` keeps it. */
  lemma ParseOfFailedTerm(k: Kind, v: Variant, line: string, t: Ptr, w: string)
    requires Term(k, v, In(line, true)) == Got(t, In(w, false)) && t != Nil
    ensures Parse(k, v, line) == Tree(t)
  {
    ExpressionOf(k, v, In(line, true), t, In(w, false));
    FailedTails(k, v, t, w);
  }

  /** An exception in the first term leaves `parse`. */
  lemma ParseOfThrowingTerm(k: Kind, v: Variant, line: string)
    requires Term(k, v, In(line, true)) == Threw
    ensures Parse(k, v, line) == Abort
  {
  }

  /** A `-` before an operand that `terminal` cannot read (`-x`): the
      `std::variant` program builds a minus node with a null child, which
      `display` throws on before writing anything; the class hierarchy
      throws while parsing. Either way `run` writes nothing and fails. */
  lemma MinusBeforeBadOperand(k: Kind, w: string)
    requires k != Str && w != [] && !IsDigit(w[0]) && !IsCSpace(w[0])
    requires w[0] != '(' && w[0] != '+' && w[0] != '-'
    ensures Parse(k, Static, "-" + w) == Tree(Neg(Nil))
    ensures Parse(k, Virtual, "-" + w) == Abort
    ensures Run(k, Static, "-" + w) == Exit("", ExitFailure)
    ensures Run(k, Virtual, "-" + w) == Exit("", ExitFailure)
  {
    var line := "-" + w;
    MinusFactor(k, Static, w);
    TermOf(k, Static, In(line, true), Neg(Nil), In(w, false));
    FailedTails(k, Static, Neg(Nil), w);
    ParseOfFailedTerm(k, Static, line, Neg(Nil), w);
    MinusFactor(k, Virtual, w);
    ParseOfThrowingTerm(k, Virtual, line);
  }

  /** `factor` on `-w`, with `w` as above. */
  lemma MinusFactor(k: Kind, v: Variant, w: string)
    requires k != Str && w != [] && !IsDigit(w[0]) && !IsCSpace(w[0])
    requires w[0] != '(' && w[0] != '+' && w[0] != '-'
    ensures Factor(k, v, In("-" + w, true)) == if v == Static then Got(Neg(Nil), In(w, false)) else Threw
  {
    var line := "-" + w;
    NextChar(line);
    assert line[1..] == w;
    NextChar(w);
    SkipPlain(w);
    assert Terminal(k, In(w, true)) == Got(Nil, In(w, false));
  }

  /** The same after a complete factor and `*` (`2*-x`): the `std::variant`
      program writes the part of the tree it reaches before the null child,
      `((2)*`, then fails; the class hierarchy writes nothing. */
  lemma PartialOutput(k: Kind, n: nat, w: string)
    requires k != Str && InRange(k, n)
    requires w != [] && !IsDigit(w[0]) && !IsCSpace(w[0])
    requires w[0] != '(' && w[0] != '+' && w[0] != '-'
    ensures Run(k, Static, ShowNat(n) + "*-" + w) == Exit("((" + ShowNat(n) + ")*", ExitFailure)
    ensures Run(k, Virtual, ShowNat(n) + "*-" + w) == Exit("", ExitFailure)
  {
    ProductWithBadOperand(k, Static, n, w);
    ProductWithBadOperand(k, Virtual, n, w);
    DisplayProduct(n);
  }

  lemma DisplayProduct(n: nat)
    ensures Display(Static, Bin(Mul, Lit(n), Neg(Nil))) == Shown("((" + ShowNat(n) + ")*", true)
  {
    assert Show(Int(n)) == ShowNat(n);
    assert Display(Static, Lit(n)).out == "(" + ShowNat(n) + ")";
  }

  lemma ProductWithBadOperand(k: Kind, v: Variant, n: nat, w: string)
    requires k != Str && InRange(k, n)
    requires w != [] && !IsDigit(w[0]) && !IsCSpace(w[0])
    requires w[0] != '(' && w[0] != '+' && w[0] != '-'
    ensures Parse(k, v, ShowNat(n) + "*-" + w) == if v == Static then Tree(Bin(Mul, Lit(n), Neg(Nil))) else Abort
  {
    var u := "*-" + w;
    var line := ShowNat(n) + u;
    assert line == ShowNat(n) + "*-" + w;
    ProductTerm(k, v, n, u, w);
    if v == Static {
      ParseOfFailedTerm(k, v, line, Bin(Mul, Lit(n), Neg(Nil)), w);
    } else {
      ParseOfThrowingTerm(k, v, line);
    }
  }

  lemma ProductTerm(k: Kind, v: Variant, n: nat, u: string, w: string)
    requires k != Str && InRange(k, n)
    requires w != [] && !IsDigit(w[0]) && !IsCSpace(w[0])
    requires w[0] != '(' && w[0] != '+' && w[0] != '-' && u == "*-" + w
    ensures Term(k, v, In(ShowNat(n) + u, true)) == if v == Static then Got(Bin(Mul, Lit(n), Neg(Nil)), In(w, false)) else Threw
  {
    FactorLiteral(k, v, n, u);
    TermOf(k, v, In(ShowNat(n) + u, true), Lit(n), In(u, true));
    ProductTail(k, v, Lit(n), u, w);
  }

  /** `*-w` after a factor. */
  lemma ProductTail(k: Kind, v: Variant, acc: Ptr, u: string, w: string)
    requires k != Str && Shape(k, v, acc)
    requires w != [] && !IsDigit(w[0]) && !IsCSpace(w[0])
    requires w[0] != '(' && w[0] != '+' && w[0] != '-' && u == "*-" + w
    ensures TermTail(k, v, acc, In(u, true)) == if v == Static then Got(Bin(Mul, acc, Neg(Nil)), In(w, false)) else Threw
  {
    NextChar(u);
    assert u[1..] == "-" + w;
    MinusFactor(k, v, w);
    if v == Static {
      TermTailStep(k, v, Mul, acc, u, Neg(Nil), In(w, false));
      FailedTails(k, v, Bin(Mul, acc, Neg(Nil)), w);
    }
  }
}
