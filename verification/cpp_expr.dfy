/** The expression trees of the two C++ evaluators and what `eval` and
    `display` do with them: expr_static_cpp/expr_static.cpp keeps a node in a
    `std::variant` (class `expr<T>`), expr_cpp/expr.cpp in a class hierarchy
    (`value`, `op1`/`op_minus`, `op2`/`op_add`/`op_sub`/`op_mul`/`op_div`). */
module CppExpr {
  import opened Wrappers
  import opened ExprCore

  /** Which of the two programs: `std::variant` nodes (`Static`) or virtual
      classes (`Virtual`). */
  datatype Variant = Static | Virtual

  /** A pointer to a node: null, or a literal, a unary minus or a binary
      operator whose children are pointers themselves. */
  datatype Ptr = Nil | Leaf(v: Scalar) | Neg(child: Ptr) | Bin(op: Op2Kind, l: Ptr, r: Ptr)

  /** What `eval` gives: a value, `std::nullopt`, an exception thrown on a
      null child, or undefined behaviour (signed overflow). */
  datatype Out = Has(v: Scalar) | Nullopt | Throws | Undefined

  /** A signed result, or undefined behaviour outside `int`; an unsigned
      result reduced modulo 2^32. */
  function Arith(k: Kind, n: int): (r: Out)
    requires k != Str
    ensures r.Has? ==> OfKind(k, r.v)
    ensures k == U32 ==> r == Has(Int(WrapU32(n)))
    ensures k == I32 ==> (r.Has? <==> InRange(I32, n)) && (r.Has? ==> r.v == Int(n))
  {
    if k == U32 then Has(Int(WrapU32(n)))
    else if InRange(I32, n) then Has(Int(n)) else Undefined
  }

  /** Unary minus: `-v` for `int` and `unsigned`; no value for strings. */
  function NegOp(k: Kind, x: Scalar): (r: Out)
    requires OfKind(k, x)
    ensures k == Str <==> r == Nullopt
    ensures k == U32 ==> r == Has(Int(WrapU32(-x.n)))
    ensures r.Has? ==> OfKind(k, r.v)
  {
    if k == Str then Nullopt else Arith(k, -x.n)
  }

  /** The binary operators: integer arithmetic with a zero divisor giving no
      value; for strings only `+`, as concatenation. */
  function BinOp(k: Kind, op: Op2Kind, a: Scalar, b: Scalar): (r: Out)
    requires OfKind(k, a) && OfKind(k, b)
    ensures k == Str ==> (r.Has? <==> op == Add) && (r.Has? ==> r.v == Text(a.s + b.s))
    ensures k != Str && op == Div ==> (b.n == 0 <==> r == Nullopt)
    ensures r.Has? ==> OfKind(k, r.v)
    ensures r != Throws
  {
    if k == Str then
      if op == Add then Has(Text(a.s + b.s)) else Nullopt
    else
      match op
      case Add => Arith(k, a.n + b.n)
      case Sub => Arith(k, a.n - b.n)
      case Mul => Arith(k, a.n * b.n)
      case Div => if b.n == 0 then Nullopt else Arith(k, TruncDiv(a.n, b.n))
  }

  /** `eval`. A unary node evaluates its child and negates its value; in the
      `std::variant` program the string overload of unary `eval` answers
      no value without looking at the child. A binary node evaluates the left
      child, then the right, and has a value only when both do. A null child
      throws when it is reached: the `std::variant` program checks both
      children of a binary node before evaluating either, the class hierarchy
      checks each child as it gets to it. An exception or undefined behaviour
      ends the evaluation. */
  function Eval(k: Kind, v: Variant, t: Ptr): (r: Out)
    requires Kinded(k, t)
    ensures r.Has? ==> OfKind(k, r.v)
  {
    match t
    case Nil => Throws
    case Leaf(x) => Has(x)
    case Neg(c) =>
      if k == Str && v == Static then Nullopt
      else
        var cv := Eval(k, v, c);
        if cv.Has? then NegOp(k, cv.v) else cv
    case Bin(op, l, r) =>
      if l == Nil || (v == Static && r == Nil) then Throws
      else
        var lv := Eval(k, v, l);
        if lv.Throws? || lv.Undefined? then lv
        else
          var rv := Eval(k, v, r);
          if rv.Throws? || rv.Undefined? then rv
          else if lv.Has? && rv.Has? then BinOp(k, op, lv.v, rv.v)
          else Nullopt
  }

  /** Every literal of `t` is of kind `k`. */
  predicate Kinded(k: Kind, t: Ptr) {
    match t
    case Nil => true
    case Leaf(x) => OfKind(k, x)
    case Neg(c) => Kinded(k, c)
    case Bin(_, l, r) => Kinded(k, l) && Kinded(k, r)
  }

  /** What `display` wrote to `std::cout` and whether it threw. */
  datatype Shown = Shown(out: string, threw: bool)

  /** `display`: `(v)`, `(-c)`, `(l op r)`. A null child throws: the
      `std::variant` program checks before it writes anything for the node,
      the class hierarchy only when it reaches the child, after writing what
      comes before it. */
  function Display(v: Variant, t: Ptr): (r: Shown)
    ensures !r.threw ==> |r.out| >= 2 && r.out[0] == '(' && r.out[|r.out| - 1] == ')'
  {
    match t
    case Nil => Shown("", true)
    case Leaf(x) => Shown("(" + Show(x) + ")", false)
    case Neg(c) =>
      if c == Nil then Shown(if v == Static then "" else "(-", true)
      else
        var d := Display(v, c);
        if d.threw then Shown("(-" + d.out, true) else Shown("(-" + d.out + ")", false)
    case Bin(op, l, r) =>
      if v == Static && (l == Nil || r == Nil) then Shown("", true)
      else if l == Nil then Shown("(", true)
      else
        var dl := Display(v, l);
        if dl.threw then Shown("(" + dl.out, true)
        else if r == Nil then Shown("(" + dl.out + [Op2Char(op)], true)
        else
          var dr := Display(v, r);
          if dr.threw then Shown("(" + dl.out + [Op2Char(op)] + dr.out, true)
          else Shown("(" + dl.out + [Op2Char(op)] + dr.out + ")", false)
  }

  /** No null pointer anywhere in `t`. */
  predicate Whole(t: Ptr) {
    match t
    case Nil => false
    case Leaf(_) => true
    case Neg(c) => Whole(c)
    case Bin(_, l, r) => Whole(l) && Whole(r)
  }
}
