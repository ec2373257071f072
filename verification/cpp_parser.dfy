/** The recursive-descent parsers of the two C++ evaluators
    (expr_static_cpp/expr_static.cpp and expr_cpp/expr.cpp, namespace
    `parser`), and their `parse` and `run`. Both read `std::cin` one `char` at
    a time with `>>`, which skips whitespace, and push a character that is
    not theirs back with `unget`. A rule that cannot go on answers a null
    pointer. The two programs differ in one place: when a unary minus has no
    operand, the `std::variant` program builds a minus node with a null
    child, while the class hierarchy's `op1::child` throws. */
module CppParser {
  import opened Wrappers
  import opened ExprCore
  import opened CppStream
  import opened CppExpr

  /** What a parser function gives: a pointer and the stream after it, or an
      exception that leaves the parser. */
  datatype Outcome = Got(t: Ptr, st: In) | Threw

  /** The trees the parsers build: literals of the kind, and a null pointer
      only as the operand of a minus, and only in the `std::variant`
      program. */
  predicate Shape(k: Kind, v: Variant, t: Ptr) {
    match t
    case Nil => false
    case Leaf(x) => OfKind(k, x)
    case Neg(c) => (v == Static && c == Nil) || Shape(k, v, c)
    case Bin(_, l, r) => Shape(k, v, l) && Shape(k, v, r)
  }

  /** A rule never puts back more than it took, and builds null or a tree of
      the right shape. */
  predicate Good(k: Kind, v: Variant, r: Outcome, st: In) {
    r.Got? ==> |r.st.rest| <= |st.rest| && (r.t == Nil || Shape(k, v, r.t))
  }

  /** `terminal`: one value extracted with `>>`, or null when the extraction
      fails. */
  function Terminal(k: Kind, st: In): (r: Outcome)
    ensures r.Got? && |r.st.rest| <= |st.rest|
    ensures r.t == Nil || (r.t.Leaf? && OfKind(k, r.t.v) && |r.st.rest| < |st.rest|)
    ensures r.t == Nil <==> ReadValue(k, st).val.None?
  {
    var x := ReadValue(k, st);
    Got(if x.val.Some? then Leaf(x.val.value) else Nil, x.st)
  }

  /** The end of `factor`: a pending minus wraps the operand `e` in a minus
      node. `op1::child` of the class hierarchy throws on a null operand; the
      `std::variant` constructor takes it. */
  function Wrap(v: Variant, minus: bool, e: Ptr, st: In): (r: Outcome)
    ensures !minus ==> r == Got(e, st)
    ensures minus ==> (r.Threw? <==> v == Virtual && e == Nil)
    ensures minus && r.Got? ==> r == Got(Neg(e), st)
  {
    if !minus then Got(e, st)
    else if v == Virtual && e == Nil then Threw
    else Got(Neg(e), st)
  }

  /** `factor`: an optional `-`, then an operand. Any character other than
      `-` is put back. With nothing left to read the result is null, even
      after a `-`. */
  function Factor(k: Kind, v: Variant, st: In): (r: Outcome)
    ensures Good(k, v, r, st)
    decreases |st.rest|, 2
  {
    var a := ReadChar(st);
    if a.val.None? then Got(Nil, a.st)
    else
      var minus := a.val.value == '-';
      Operand(k, v, minus, if minus then a.st else PutBack(a.st, a.val.value))
  }

  /** The second half of `factor`: `(` starts a parenthesized expression;
      any other character is put back and a terminal is read. */
  function Operand(k: Kind, v: Variant, minus: bool, st: In): (r: Outcome)
    ensures Good(k, v, r, st)
    decreases |st.rest|, 1
  {
    var b := ReadChar(st);
    if b.val.None? then Got(Nil, b.st)
    else if b.val.value == '(' then Close(k, v, minus, Expression(k, v, b.st))
    else
      var x := Terminal(k, PutBack(b.st, b.val.value));
      Wrap(v, minus, x.t, x.st)
  }

  /** After `( expression`: a null expression, or anything but `)` next,
      makes the factor null, without the minus; otherwise the minus
      applies. */
  function Close(k: Kind, v: Variant, minus: bool, inner: Outcome): (r: Outcome)
    requires inner.Got? ==> inner.t == Nil || Shape(k, v, inner.t)
    ensures inner.Threw? ==> r.Threw?
    ensures inner.Got? ==> r.Got? && |r.st.rest| <= |inner.st.rest| && (r.t == Nil || Shape(k, v, r.t))
    ensures r.Got? && r.t != Nil ==> r.t == (if minus then Neg(inner.t) else inner.t)
  {
    match inner
    case Threw => Threw
    case Got(e, s) =>
      if e == Nil then Got(Nil, s)
      else
        var c := ReadChar(s);
        if c.val != Some(')') then Got(Nil, c.st) else Wrap(v, minus, e, c.st)
  }

  /** `term`: factors joined by `*` and `/`, folded to the left. */
  function Term(k: Kind, v: Variant, st: In): (r: Outcome)
    ensures Good(k, v, r, st)
    decreases |st.rest|, 4
  {
    var f := Factor(k, v, st);
    if f.Threw? || f.t == Nil then f else TermTail(k, v, f.t, f.st)
  }

  /** The loop of `term` with the tree `acc` built so far: at the end of the
      input the loop stops; a character that is not `*` or `/` is put back
      and ends it; a null factor after an operator makes the term null. */
  function TermTail(k: Kind, v: Variant, acc: Ptr, st: In): (r: Outcome)
    requires Shape(k, v, acc)
    ensures Good(k, v, r, st)
    decreases |st.rest|, 3
  {
    var a := ReadChar(st);
    if a.val.None? then Got(acc, a.st)
    else
      var op := MulOp(a.val.value);
      if op.None? then Got(acc, PutBack(a.st, a.val.value))
      else
        var f := Factor(k, v, a.st);
        if f.Threw? || f.t == Nil then f
        else TermTail(k, v, Bin(op.value, acc, f.t), f.st)
  }

  /** `expression`: terms joined by `+` and `-`, folded to the left. */
  function Expression(k: Kind, v: Variant, st: In): (r: Outcome)
    ensures Good(k, v, r, st)
    decreases |st.rest|, 6
  {
    var f := Term(k, v, st);
    if f.Threw? || f.t == Nil then f else ExprTail(k, v, f.t, f.st)
  }

  /** The loop of `expression`, as `TermTail` with `+` and `-`. */
  function ExprTail(k: Kind, v: Variant, acc: Ptr, st: In): (r: Outcome)
    requires Shape(k, v, acc)
    ensures Good(k, v, r, st)
    decreases |st.rest|, 5
  {
    var a := ReadChar(st);
    if a.val.None? then Got(acc, a.st)
    else
      var op := AddOp(a.val.value);
      if op.None? then Got(acc, PutBack(a.st, a.val.value))
      else
        var f := Term(k, v, a.st);
        if f.Threw? || f.t == Nil then f
        else ExprTail(k, v, Bin(op.value, acc, f.t), f.st)
  }

  /** `parse`: an expression of the whole input. A character left after it
      makes the result null; an exception from the parser leaves `parse`. */
  function Parse(k: Kind, v: Variant, input: string): (r: TopParse<Ptr>)
    ensures r.Tree? ==> Shape(k, v, r.t)
  {
    match Expression(k, v, In(input, true))
    case Threw => Abort
    case Got(t, s) => if t == Nil || ReadChar(s).val.Some? then NoTree else Tree(t)
  }

  /** The exit status `EXIT_SUCCESS` and `EXIT_FAILURE`. */
  const ExitSuccess := 0
  const ExitFailure := 1

  /** What `run` writes to `std::cout` and returns, or undefined behaviour
      (a signed overflow in `eval`). */
  datatype Exit = Exit(stdout: string, status: int) | UndefinedBehaviour

  /** `run`: the tree as `display` writes it, a newline, then the value or
      `no value`; `invalid expression` when there is no tree. An exception,
      from the parser, from `display` or from `eval`, is caught: what was
      written stays written and `run` returns `EXIT_FAILURE` (its message
      goes to `std::cerr`). */
  function Run(k: Kind, v: Variant, input: string): (r: Exit)
    ensures r.Exit? ==> r.status == ExitSuccess || r.status == ExitFailure
  {
    match Parse(k, v, input)
    case Abort => Exit("", ExitFailure)
    case NoTree => Exit("invalid expression\n", ExitSuccess)
    case Tree(t) =>
      var d := Display(v, t);
      if d.threw then Exit(d.out, ExitFailure)
      else
        assert Kinded(k, t) by { ShapeKinded(k, v, t); }
        match Eval(k, v, t)
        case Has(x) => Exit(d.out + "\n" + Show(x) + "\n", ExitSuccess)
        case Nullopt => Exit(d.out + "\nno value\n", ExitSuccess)
        case Throws => Exit(d.out + "\n", ExitFailure)
        case Undefined => UndefinedBehaviour
  }

  /** The trees the parsers build hold literals of the kind only. */
  lemma {:induction false} ShapeKinded(k: Kind, v: Variant, t: Ptr)
    requires Shape(k, v, t)
    ensures Kinded(k, t)
  {
    match t
    case Leaf(_) =>
    case Neg(c) =>
      if c != Nil {
        ShapeKinded(k, v, c);
      }
    case Bin(_, l, r) =>
      ShapeKinded(k, v, l);
      ShapeKinded(k, v, r);
  }
}
