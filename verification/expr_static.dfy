/** expr_static/src/main.rs: the per-type operation table (`Ops`), the
    evaluation of the operators (`Op1Kind::eval`, `Op2Kind::eval`), the
    evaluator `Expr::eval` and the printer (`Display for Expr`). */
module ExprStatic {
  import opened Wrappers
  import opened ExprCore

  /** What an operation or an evaluation yields: a value, "no value" (`None`),
      or a panic. Integer overflow panics because the program is taken to be
      a debug build, where Rust checks every `+`, `-`, `*`, `/` and negation. */
  datatype Arith = Val(v: Scalar) | NoValue | Panic

  /** An integer result of kind `k`, or the overflow panic. */
  function Checked(k: Kind, n: int): (r: Arith)
    requires k != Str
    ensures r.Val? <==> InRange(k, n)
    ensures r.Val? ==> r.v == Int(n)
    ensures !r.NoValue?
  {
    if InRange(k, n) then Val(Int(n)) else Panic
  }

  // ---------------------------------------------------------------- Ops

  /** `Ops::neg`: `-self` for i32, no value for u32 and String. */
  function OpsNeg(k: Kind, c: Scalar): (r: Arith)
    requires OfKind(k, c)
    ensures k != I32 ==> r == NoValue
    ensures k == I32 ==> (r == Panic <==> c.n == I32Min)
    ensures r.Val? ==> r.v == Int(-c.n)
  {
    match k
    case I32 => Checked(I32, -c.n)
    case U32 => NoValue
    case Str => NoValue
  }

  /** `Ops::add`: integer sum, or concatenation for String. */
  function OpsAdd(k: Kind, l: Scalar, r: Scalar): (res: Arith)
    requires OfKind(k, l) && OfKind(k, r)
    ensures k == Str ==> res == Val(Text(l.s + r.s))
    ensures k != Str ==> res == Checked(k, l.n + r.n)
  {
    if k == Str then Val(Text(l.s + r.s)) else Checked(k, l.n + r.n)
  }

  /** `Ops::sub`: integer difference; no value for String. */
  function OpsSub(k: Kind, l: Scalar, r: Scalar): (res: Arith)
    requires OfKind(k, l) && OfKind(k, r)
    ensures k == Str ==> res == NoValue
    ensures k != Str ==> res == Checked(k, l.n - r.n)
  {
    if k == Str then NoValue else Checked(k, l.n - r.n)
  }

  /** `Ops::mul`: integer product; no value for String. */
  function OpsMul(k: Kind, l: Scalar, r: Scalar): (res: Arith)
    requires OfKind(k, l) && OfKind(k, r)
    ensures k == Str ==> res == NoValue
    ensures k != Str ==> res == Checked(k, l.n * r.n)
  {
    if k == Str then NoValue else Checked(k, l.n * r.n)
  }

  /** `Ops::div`: truncating integer quotient; a zero divisor panics (Rust's
      `/` does); no value for String. */
  function OpsDiv(k: Kind, l: Scalar, r: Scalar): (res: Arith)
    requires OfKind(k, l) && OfKind(k, r)
    ensures k == Str ==> res == NoValue
    ensures k != Str && r.n == 0 ==> res == Panic
    ensures k != Str && r.n != 0 ==> res == Checked(k, TruncDiv(l.n, r.n))
  {
    if k == Str then NoValue
    else if r.n == 0 then Panic
    else Checked(k, TruncDiv(l.n, r.n))
  }

  // ---------------------------------------------------------------- operators

  /** `Op1Kind::eval`. */
  function Op1Eval(k: Kind, op: Op1Kind, c: Scalar): (res: Arith)
    requires OfKind(k, c)
    ensures res.Val? <==> k == I32 && c.n != I32Min
    ensures res.Val? ==> res.v == Int(-c.n)
  {
    match op
    case Minus => OpsNeg(k, c)
  }

  /** `Op2Kind::eval`: division is guarded by a comparison with `T::default()`,
      so a zero (or, for String, empty) divisor gives no value instead of
      reaching `Ops::div`. */
  function Op2Eval(k: Kind, op: Op2Kind, l: Scalar, r: Scalar): (res: Arith)
    requires OfKind(k, l) && OfKind(k, r)
    ensures op == Div && r == Zero(k) ==> res == NoValue
    ensures res.Val? ==> OfKind(k, res.v)
    ensures k == Str ==> (res.Val? <==> op == Add)
  {
    match op
    case Add => OpsAdd(k, l, r)
    case Sub => OpsSub(k, l, r)
    case Mul => OpsMul(k, l, r)
    case Div => if r != Zero(k) then OpsDiv(k, l, r) else NoValue
  }

  /** `Expr::eval`: a literal is its own value; a unary node has a value only
      when its child has one; a binary node evaluates the left child, then the
      right, and has a value only when both do. A panic anywhere aborts. */
  function Eval(k: Kind, e: Expr): (res: Arith)
    requires WellKinded(k, e)
    ensures res.Val? ==> OfKind(k, res.v)
  {
    match e
    case Value(v) => Val(v)
    case Op1(op, c) =>
      var cv := Eval(k, c);
      if cv.Val? then Op1Eval(k, op, cv.v) else cv
    case Op2(op, l, r) =>
      var lv := Eval(k, l);
      if lv.Panic? then Panic
      else
        var rv := Eval(k, r);
        if rv.Panic? then Panic
        else if lv.Val? && rv.Val? then Op2Eval(k, op, lv.v, rv.v)
        else NoValue
  }

  /** `Display for Expr`: every node in parentheses, `(v)`, `(-c)`, `(l op r)`. */
  function Display(e: Expr): string {
    match e
    case Value(v) => "(" + Show(v) + ")"
    case Op1(_, c) => "(-" + Display(c) + ")"
    case Op2(op, l, r) => "(" + Display(l) + [Op2Char(op)] + Display(r) + ")"
  }
}
