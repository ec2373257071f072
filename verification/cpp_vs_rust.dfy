/** The C++ programs (expr_static_cpp/expr_static.cpp, expr_cpp/expr.cpp)
    against the Rust one (expr_static/src/main.rs) on the same tree and the
    same input: for `int` and strings they evaluate and print alike, a Rust
    overflow panic being C++ undefined behaviour; `unsigned` wraps where
    Rust has no value or panics; and their parsers part ways on trailing
    text and on a `-` before a bad operand. */
module CppVersusRust {
  import opened Wrappers
  import opened ExprCore
  import RustEval = ExprStatic
  import RustParser = ExprStaticParser
  import RustEvalProps = ExprStaticEvalProps
  import RustExamples = ExprStaticExamples
  import opened CppStream
  import opened CppExpr
  import CppParser
  import CppExamples

  /** The C++ tree of a Rust tree: the same nodes, no null pointer. */
  function ToPtr(e: Expr): (t: Ptr)
    ensures Whole(t)
  {
    match e
    case Value(x) => Leaf(x)
    case Op1(_, c) => Neg(ToPtr(c))
    case Op2(op, l, r) => Bin(op, ToPtr(l), ToPtr(r))
  }

  lemma {:induction false} ToPtrKinded(k: Kind, e: Expr)
    requires WellKinded(k, e)
    ensures Kinded(k, ToPtr(e))
  {
    match e
    case Value(_) =>
    case Op1(_, c) =>
      ToPtrKinded(k, c);
    case Op2(_, l, r) =>
      ToPtrKinded(k, l);
      ToPtrKinded(k, r);
  }

  /** A Rust outcome as C++ has it: a value is a value, `None` is
      `std::nullopt`, and the overflow Rust panics on is undefined behaviour
      in C++. */
  function Agree(a: RustEval.Arith): Out {
    match a
    case Val(x) => Has(x)
    case NoValue => Nullopt
    case Panic => Undefined
  }

  /** One binary operator of kind `int` or string, in both languages. */
  lemma Op2Agree(k: Kind, op: Op2Kind, a: Scalar, b: Scalar)
    requires k != U32 && OfKind(k, a) && OfKind(k, b)
    ensures BinOp(k, op, a, b) == Agree(RustEval.Op2Eval(k, op, a, b))
  {
    if k == I32 && op == Div && b.n != 0 {
      assert b != Zero(k);
    }
  }

  /** For `int` and strings, both C++ programs evaluate a tree as Rust
      does. */
  lemma {:induction false} EvalAgrees(k: Kind, v: Variant, e: Expr)
    requires k != U32 && WellKinded(k, e)
    ensures Kinded(k, ToPtr(e)) && Eval(k, v, ToPtr(e)) == Agree(RustEval.Eval(k, e))
  {
    ToPtrKinded(k, e);
    match e
    case Value(_) =>
    case Op1(_, c) =>
      EvalAgrees(k, v, c);
      if k == Str {
        RustEvalProps.StrEval(c);
      }
    case Op2(op, l, r) =>
      EvalAgrees(k, v, l);
      EvalAgrees(k, v, r);
      var lv, rv := RustEval.Eval(k, l), RustEval.Eval(k, r);
      if lv.Val? && rv.Val? {
        Op2Agree(k, op, lv.v, rv.v);
      }
  }

  /** Both C++ printers write a tree as the Rust printer does. */
  lemma {:induction false} DisplayAgrees(v: Variant, e: Expr)
    ensures Display(v, ToPtr(e)) == Shown(RustEval.Display(e), false)
  {
    match e
    case Value(_) =>
    case Op1(_, c) =>
      DisplayAgrees(v, c);
    case Op2(op, l, r) =>
      DisplayAgrees(v, l);
      DisplayAgrees(v, r);
  }

  /** Unsigned negation: Rust has no value, C++ wraps around. */
  lemma UnsignedNegationDiffers(v: Variant, n: int)
    requires 0 < n <= U32Max
    ensures var e := Op1(Minus, Value(Int(n)));
      WellKinded(U32, e) && Kinded(U32, ToPtr(e))
      && RustEval.Eval(U32, e) == RustEval.NoValue
      && Eval(U32, v, ToPtr(e)) == Has(Int(U32Modulus - n))
  {
    var e := Op1(Minus, Value(Int(n)));
    assert WellKinded(U32, e);
    ToPtrKinded(U32, e);
    assert WrapU32(-n) == U32Modulus - n;
  }

  /** An unsigned sum past 2^32 - 1: Rust panics, C++ wraps around. */
  lemma UnsignedOverflowDiffers(v: Variant, a: int, b: int)
    requires 0 <= a <= U32Max && 0 <= b <= U32Max && a + b > U32Max
    ensures var e := Op2(Add, Value(Int(a)), Value(Int(b)));
      WellKinded(U32, e) && Kinded(U32, ToPtr(e))
      && RustEval.Eval(U32, e) == RustEval.Panic
      && Eval(U32, v, ToPtr(e)) == Has(Int(a + b - U32Modulus))
  {
    var e := Op2(Add, Value(Int(a)), Value(Int(b)));
    assert WellKinded(U32, Value(Int(a))) && WellKinded(U32, Value(Int(b)));
    ToPtrKinded(U32, e);
    assert WrapU32(a + b) == a + b - U32Modulus;
  }

  /** A literal followed by text that starts with neither a digit,
      whitespace nor an operator (`12x`): Rust's `parse` keeps the literal,
      C++'s `parse` gives no tree. */
  lemma TrailingTextDiffers(k: Kind, v: Variant, n: nat, u: string)
    requires k != Str && InRange(k, n)
    requires u != [] && !IsDigit(u[0]) && !IsCSpace(u[0]) && !IsRustSpace(u[0])
    requires !IsRustSpace(u[|u| - 1]) && MulOp(u[0]).None? && AddOp(u[0]).None?
    ensures RustParser.Parse(k, ShowNat(n) + u) == Tree(Value(Int(n)))
    ensures CppParser.Parse(k, v, ShowNat(n) + u) == NoTree
  {
    assert RustParser.TrimStart(u) == u;
    RustExamples.TrailingTextIgnored(k, n, u);
    CppExamples.TrailingTextRejected(k, v, n, u);
  }

  /** A `-` before an operand neither reads (`-x`): Rust panics (exit status
      101); both C++ programs end `run` with `EXIT_FAILURE` and empty
      output. */
  lemma MinusBeforeBadOperandDiffers(k: Kind, v: Variant, w: string)
    requires k != Str && w != [] && !IsDigit(w[0]) && !IsCSpace(w[0]) && !IsRustSpace(w[0])
    requires w[0] != '(' && w[0] != '+' && w[0] != '-' && !IsRustSpace(w[|w| - 1])
    ensures RustParser.Run(k, "-" + w) == RustParser.RunResult([], RustParser.PanicStatus)
    ensures CppParser.Run(k, v, "-" + w) == CppParser.Exit("", CppParser.ExitFailure)
  {
    RustExamples.MinusBeforeBadOperandPanics(k, w);
    CppExamples.MinusBeforeBadOperand(k, w);
  }
}
