/** expr/src/main.rs: the first sketch of the evaluator, with a literal node
    (`Value`) and a unary minus node (`OpMinus`, through the `Op1` trait's
    default methods), over `i32`. Its `run` builds and evaluates one fixed
    tree. */
module ExprStub {
  import opened Wrappers
  import ExprCore

  /** The two node types of the sketch. */
  datatype Node = Value(v: int) | OpMinus(child: Node)

  /** `OpMinus::eval_op`: no value stays no value, a value is negated. */
  function NegateOption(x: Option<int>): (r: Option<int>)
    ensures r.Some? <==> x.Some?
    ensures r.Some? ==> r.value + x.value == 0
  {
    match x
    case None => None
    case Some(n) => Some(-n)
  }

  /** `Value::eval` (a copy of the stored value) and `Op1::op1_eval` (`eval_op`
      applied to the child's value). */
  function Eval(e: Node): (r: Option<int>)
    ensures r.Some?
  {
    match e
    case Value(v) => Some(v)
    case OpMinus(c) => NegateOption(Eval(c))
  }

  /** `Value::display` and `Op1::op1_display`. */
  function Display(e: Node): (r: string)
    ensures |r| >= 2 && r[0] == '(' && r[|r| - 1] == ')'
  {
    match e
    case Value(v) => "(" + ExprCore.ShowInt(v) + ")"
    case OpMinus(c) => "(-" + Display(c) + ")"
  }

  /** The value of a literal under `d` minus nodes: negated when `d` is
      odd. */
  function Nest(d: nat, v: int): Node {
    if d == 0 then Value(v) else OpMinus(Nest(d - 1, v))
  }

  lemma {:induction false} EvalNest(d: nat, v: int)
    ensures Eval(Nest(d, v)) == Some(if d % 2 == 0 then v else -v)
  {
    if d > 0 {
      EvalNest(d - 1, v);
    }
  }

  /** The printed tree has as many `(` as `)`. */
  function Count(s: string, c: char): nat {
    if s == [] then 0 else (if s[0] == c then 1 else 0) + Count(s[1..], c)
  }

  lemma {:induction false} CountConcat(a: string, b: string, c: char)
    ensures Count(a + b, c) == Count(a, c) + Count(b, c)
  {
    if a != [] {
      assert (a + b)[1..] == a[1..] + b;
      CountConcat(a[1..], b, c);
    } else {
      assert a + b == b;
    }
  }

  lemma {:induction false} CountDigits(n: nat)
    ensures Count(ExprCore.ShowNat(n), '(') == 0 && Count(ExprCore.ShowNat(n), ')') == 0
  {
    if n >= 10 {
      CountDigits(n / 10);
      CountConcat(ExprCore.ShowNat(n / 10), [ExprCore.DigitChar(n % 10)], '(');
      CountConcat(ExprCore.ShowNat(n / 10), [ExprCore.DigitChar(n % 10)], ')');
    }
  }

  lemma CountShowInt(v: int)
    ensures Count(ExprCore.ShowInt(v), '(') == 0 && Count(ExprCore.ShowInt(v), ')') == 0
  {
    var m := if v < 0 then -v else v;
    CountDigits(m);
    if v < 0 {
      CountConcat("-", ExprCore.ShowNat(m), '(');
      CountConcat("-", ExprCore.ShowNat(m), ')');
    }
  }

  /** `Count` over the three pieces a node prints. */
  lemma CountWrapped(a: string, b: string, c: string, x: char)
    ensures Count(a + b + c, x) == Count(a, x) + Count(b, x) + Count(c, x)
  {
    CountConcat(a, b, x);
    CountConcat(a + b, c, x);
  }

  lemma {:induction false} DisplayBalanced(e: Node)
    ensures Count(Display(e), '(') == Count(Display(e), ')')
  {
    match e
    case Value(v) =>
      CountShowInt(v);
      CountWrapped("(", ExprCore.ShowInt(v), ")", '(');
      CountWrapped("(", ExprCore.ShowInt(v), ")", ')');
    case OpMinus(c) =>
      DisplayBalanced(c);
      CountWrapped("(-", Display(c), ")", '(');
      CountWrapped("(-", Display(c), ")", ')');
  }

  /** `run`, whatever the type chosen on the command line: it prints
      `(-(1))` and then `-1`, and succeeds. */
  function Run(k: ExprCore.Kind): (lines: seq<string>)
    ensures lines == ["(-(1))", "-1"]
  {
    var m := OpMinus(Value(1));
    var r := Eval(m);
    assert ExprCore.ShowNat(1) == "1";
    assert r == Some(-1);
    assert ExprCore.ShowInt(-1) == "-1";
    assert Display(m) == "(-" + "(1)" + ")" == "(-(1))";
    [Display(m), if r.Some? then ExprCore.ShowInt(r.value) else "no value"]
  }
}
