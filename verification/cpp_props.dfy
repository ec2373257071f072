/** Properties of the C++ trees, of `eval` and `display`, and of `run`
    (expr_static_cpp/expr_static.cpp, expr_cpp/expr.cpp): where a null
    pointer can sit, which operations have a value, and when `run` fails. */
module CppProps {
  import opened Wrappers
  import opened ExprCore
  import opened CppStream
  import opened CppExpr
  import opened CppParser

  // ---------------------------------------------------------------- null pointers

  /** The class hierarchy never builds a tree with a null pointer inside:
      `op1::child`, `op2::left` and `op2::right` throw instead. */
  lemma {:induction false} VirtualTreesWhole(k: Kind, t: Ptr)
    requires Shape(k, Virtual, t)
    ensures Whole(t)
  {
    match t
    case Leaf(_) =>
    case Neg(c) =>
      VirtualTreesWhole(k, c);
    case Bin(_, l, r) =>
      VirtualTreesWhole(k, l);
      VirtualTreesWhole(k, r);
  }

  /** `display` throws exactly when the tree holds a null pointer, in both
      programs. */
  lemma {:induction false} DisplayThrowsIffNull(v: Variant, t: Ptr)
    ensures Display(v, t).threw <==> !Whole(t)
  {
    match t
    case Nil =>
    case Leaf(_) =>
    case Neg(c) =>
      DisplayThrowsIffNull(v, c);
    case Bin(_, l, r) =>
      DisplayThrowsIffNull(v, l);
      DisplayThrowsIffNull(v, r);
  }

  /** `eval` of a tree without null pointers does not throw. */
  lemma {:induction false} WholeEvalNoThrow(k: Kind, v: Variant, t: Ptr)
    requires Kinded(k, t) && Whole(t)
    ensures !Eval(k, v, t).Throws?
  {
    match t
    case Leaf(_) =>
    case Neg(c) =>
      WholeEvalNoThrow(k, v, c);
    case Bin(_, l, r) =>
      WholeEvalNoThrow(k, v, l);
      WholeEvalNoThrow(k, v, r);
  }

  /** In the class hierarchy an exception can only come from the parser:
      once `parse` has a tree, `run` prints it and its value (or `no value`)
      and succeeds, unless a signed operation overflows. */
  lemma VirtualRunAfterParse(k: Kind, input: string)
    requires Parse(k, Virtual, input).Tree?
    ensures Run(k, Virtual, input).Exit? ==> Run(k, Virtual, input).status == ExitSuccess
  {
    var t := Parse(k, Virtual, input).t;
    VirtualTreesWhole(k, t);
    DisplayThrowsIffNull(Virtual, t);
    ShapeKinded(k, Virtual, t);
    WholeEvalNoThrow(k, Virtual, t);
  }

  /** A parse that throws ends `run` with `EXIT_FAILURE` before anything is
      written. */
  lemma AbortedRun(k: Kind, v: Variant, input: string)
    requires Parse(k, v, input).Abort?
    ensures Run(k, v, input) == Exit("", ExitFailure)
  {
  }

  // ---------------------------------------------------------------- values

  /** A binary node has a value only if both children have one. */
  lemma BinNeedsBoth(k: Kind, v: Variant, op: Op2Kind, l: Ptr, r: Ptr)
    requires Kinded(k, l) && Kinded(k, r)
    ensures Eval(k, v, Bin(op, l, r)).Has? ==> Eval(k, v, l).Has? && Eval(k, v, r).Has?
    ensures Eval(k, v, l).Has? && Eval(k, v, r).Has? ==>
      Eval(k, v, Bin(op, l, r)) == BinOp(k, op, Eval(k, v, l).v, Eval(k, v, r).v)
  {
  }

  /** A zero divisor gives no value, when the dividend has one. */
  lemma DivByZero(k: Kind, v: Variant, l: Ptr, r: Ptr)
    requires k != Str && Kinded(k, l) && Kinded(k, r)
    requires Eval(k, v, l).Has? && Eval(k, v, r) == Has(Int(0))
    ensures Eval(k, v, Bin(Div, l, r)) == Nullopt
  {
  }

  /** Unsigned negation wraps around: `-n` is 2^32 - n for a non-zero `n`. */
  lemma UnsignedNegationWraps(v: Variant, n: int)
    requires 0 < n <= U32Max
    ensures Eval(U32, v, Neg(Leaf(Int(n)))) == Has(Int(U32Modulus - n))
  {
    assert WrapU32(-n) == U32Modulus - n;
  }

  /** Every operator of `t` is `+`. */
  predicate OnlyAdd(t: Ptr) {
    match t
    case Nil => false
    case Leaf(_) => true
    case Neg(_) => false
    case Bin(op, l, r) => op == Add && OnlyAdd(l) && OnlyAdd(r)
  }

  /** The string literals of `t`, left to right. */
  function Concat(t: Ptr): string {
    match t
    case Nil => ""
    case Leaf(x) => if x.Text? then x.s else ""
    case Neg(c) => Concat(c)
    case Bin(_, l, r) => Concat(l) + Concat(r)
  }

  /** For strings a whole tree has a value exactly when every operator is
      `+`, and the value is the concatenation of its literals; otherwise it
      has none. */
  lemma {:induction false} StrEval(v: Variant, t: Ptr)
    requires Kinded(Str, t) && Whole(t)
    ensures Eval(Str, v, t).Has? || Eval(Str, v, t).Nullopt?
    ensures Eval(Str, v, t).Has? <==> OnlyAdd(t)
    ensures OnlyAdd(t) ==> Eval(Str, v, t) == Has(Text(Concat(t)))
  {
    match t
    case Leaf(_) =>
    case Neg(c) =>
      StrEval(v, c);
    case Bin(_, l, r) =>
      StrEval(v, l);
      StrEval(v, r);
  }
}
