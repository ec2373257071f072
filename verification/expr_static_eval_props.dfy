/** Properties of the Rust evaluator `Expr::eval` (expr_static/src/main.rs):
    for the integer kinds it agrees with arithmetic on unbounded integers
    until a result leaves the type's range, where it panics; for String only
    `+` has a value, the concatenation of the literals. */
module ExprStaticEvalProps {
  import opened Wrappers
  import opened ExprCore
  import opened ExprStatic

  // ---------------------------------------------------------------- integers

  /** The value of an integer tree in unbounded arithmetic: no value where
      the operation table has none (a zero divisor, or any negation for u32),
      truncating division otherwise. */
  function Ideal(k: Kind, e: Expr): Option<int> {
    match e
    case Value(v) => if v.Int? then Some(v.n) else None
    case Op1(_, c) =>
      var cv := Ideal(k, c);
      if k == U32 || cv.None? then None else Some(-cv.value)
    case Op2(op, l, r) =>
      var lv, rv := Ideal(k, l), Ideal(k, r);
      if lv.None? || rv.None? then None
      else if op == Add then Some(lv.value + rv.value)
      else if op == Sub then Some(lv.value - rv.value)
      else if op == Mul then Some(lv.value * rv.value)
      else if rv.value == 0 then None
      else Some(TruncDiv(lv.value, rv.value))
  }

  /** Every value computed on the way to the value of `e` fits the kind. */
  predicate Fits(k: Kind, e: Expr) {
    match e
    case Value(_) => true
    case Op1(_, c) => Fits(k, c) && (Ideal(k, e).Some? ==> InRange(k, Ideal(k, e).value))
    case Op2(_, l, r) => Fits(k, l) && Fits(k, r) && (Ideal(k, e).Some? ==> InRange(k, Ideal(k, e).value))
  }

  function Lift(v: Option<int>): Arith {
    if v.Some? then Val(Int(v.value)) else NoValue
  }

  /** When nothing overflows, `eval` is the unbounded value: in particular a
      zero divisor gives no value rather than a panic, since `Op2Kind::eval`
      compares the divisor with `T::default()` before dividing. */
  lemma {:induction false} EvalIdeal(k: Kind, e: Expr)
    requires k != Str && WellKinded(k, e) && Fits(k, e)
    ensures Eval(k, e) == Lift(Ideal(k, e))
  {
    match e
    case Value(v) =>
    case Op1(op, c) =>
      EvalIdeal(k, c);
    case Op2(op, l, r) =>
      EvalIdeal(k, l);
      EvalIdeal(k, r);
      Op2Ideal(k, op, l, r);
  }

  /** One binary step of `EvalIdeal`. */
  lemma Op2Ideal(k: Kind, op: Op2Kind, l: Expr, r: Expr)
    requires k != Str && WellKinded(k, l) && WellKinded(k, r) && Fits(k, Op2(op, l, r))
    requires Eval(k, l) == Lift(Ideal(k, l)) && Eval(k, r) == Lift(Ideal(k, r))
    ensures Eval(k, Op2(op, l, r)) == Lift(Ideal(k, Op2(op, l, r)))
  {
    var lv, rv := Ideal(k, l), Ideal(k, r);
    if lv.Some? && rv.Some? && op == Div && rv.value != 0 {
      assert Int(rv.value) != Zero(k);
    }
  }

  /** `eval` panics exactly when some value on the way overflows. */
  lemma {:induction false} EvalPanicIffOverflow(k: Kind, e: Expr)
    requires k != Str && WellKinded(k, e)
    ensures Eval(k, e).Panic? <==> !Fits(k, e)
  {
    match e
    case Value(v) =>
    case Op1(op, c) =>
      EvalPanicIffOverflow(k, c);
      if Fits(k, c) {
        EvalIdeal(k, c);
      }
    case Op2(op, l, r) =>
      EvalPanicIffOverflow(k, l);
      EvalPanicIffOverflow(k, r);
      if Fits(k, l) && Fits(k, r) {
        EvalIdeal(k, l);
        EvalIdeal(k, r);
        Op2Overflow(k, op, l, r);
      }
  }

  /** One binary step of `EvalPanicIffOverflow`, when both children fit. */
  lemma Op2Overflow(k: Kind, op: Op2Kind, l: Expr, r: Expr)
    requires k != Str && WellKinded(k, l) && WellKinded(k, r) && Fits(k, l) && Fits(k, r)
    requires Eval(k, l) == Lift(Ideal(k, l)) && Eval(k, r) == Lift(Ideal(k, r))
    ensures Eval(k, Op2(op, l, r)).Panic? <==> !Fits(k, Op2(op, l, r))
  {
    var lv, rv := Ideal(k, l), Ideal(k, r);
    if lv.Some? && rv.Some? && op == Div && rv.value != 0 {
      assert Int(rv.value) != Zero(k);
    }
  }

  /** For u32 a tree with a unary minus anywhere has no value. */
  lemma {:induction false} U32MinusNoValue(e: Expr)
    requires WellKinded(U32, e) && HasMinus(e)
    ensures !Eval(U32, e).Val?
  {
    match e
    case Value(_) =>
    case Op1(_, c) =>
    case Op2(_, l, r) =>
      if HasMinus(l) {
        U32MinusNoValue(l);
      } else {
        U32MinusNoValue(r);
      }
  }

  predicate HasMinus(e: Expr) {
    match e
    case Value(_) => false
    case Op1(_, _) => true
    case Op2(_, l, r) => HasMinus(l) || HasMinus(r)
  }

  /** A division whose divisor evaluates to zero has no value, whatever the
      dividend, unless the dividend panics. */
  lemma DivByZero(k: Kind, l: Expr, r: Expr)
    requires WellKinded(k, l) && WellKinded(k, r)
    requires Eval(k, r) == Val(Zero(k)) && !Eval(k, l).Panic?
    ensures Eval(k, Op2(Div, l, r)) == NoValue
  {
  }

  // ---------------------------------------------------------------- String

  /** Every operator of `e` is `+`. */
  predicate OnlyAdd(e: Expr) {
    match e
    case Value(_) => true
    case Op1(_, _) => false
    case Op2(op, l, r) => op == Add && OnlyAdd(l) && OnlyAdd(r)
  }

  /** The literals of a String tree, concatenated from left to right. */
  function Concat(e: Expr): string {
    match e
    case Value(v) => if v.Text? then v.s else ""
    case Op1(_, c) => Concat(c)
    case Op2(_, l, r) => Concat(l) + Concat(r)
  }

  /** A String tree never panics; it has a value exactly when all its
      operators are `+`, and the value is then the concatenation of its
      literals. */
  lemma {:induction false} StrEval(e: Expr)
    requires WellKinded(Str, e)
    ensures !Eval(Str, e).Panic?
    ensures Eval(Str, e).Val? <==> OnlyAdd(e)
    ensures OnlyAdd(e) ==> Eval(Str, e) == Val(Text(Concat(e)))
  {
    match e
    case Value(v) =>
    case Op1(_, c) =>
      StrEval(c);
    case Op2(op, l, r) =>
      StrEval(l);
      StrEval(r);
  }
}
