/** What the three expression evaluators (expr_static in Rust, expr_static_cpp
    and expr_cpp in C++) have in common: the scalar kinds, the expression tree,
    decimal text and the integer division of both languages. */
module ExprCore {
  import opened Wrappers

  /** The scalar type chosen on the command line: `i` (32-bit signed), `u`
      (32-bit unsigned) or `s` (string). The floating-point kind `d` is not
      modelled. */
  datatype Kind = I32 | U32 | Str

  /** A scalar of any kind: integers are unbounded here and `OfKind` says which
      of them a 32-bit kind can hold. */
  datatype Scalar = Int(n: int) | Text(s: string)

  const I32Min: int := -0x8000_0000
  const I32Max: int := 0x7fff_ffff
  const U32Max: int := 0xffff_ffff
  const U32Modulus: int := 0x1_0000_0000

  predicate InRange(k: Kind, n: int) {
    match k
    case I32 => I32Min <= n <= I32Max
    case U32 => 0 <= n <= U32Max
    case Str => false
  }

  predicate OfKind(k: Kind, v: Scalar) {
    if k == Str then v.Text? else v.Int? && InRange(k, v.n)
  }

  /** `T::default()`: 0 for the integer kinds and the empty string. */
  function Zero(k: Kind): (z: Scalar)
    ensures OfKind(k, z)
  {
    if k == Str then Text("") else Int(0)
  }

  datatype Op1Kind = Minus
  datatype Op2Kind = Add | Sub | Mul | Div

  function Op2Char(op: Op2Kind): char {
    match op
    case Add => '+'
    case Sub => '-'
    case Mul => '*'
    case Div => '/'
  }

  /** The operators of `term` (`*`, `/`) and of `expression` (`+`, `-`). */
  function MulOp(c: char): Option<Op2Kind> {
    if c == '*' then Some(Mul) else if c == '/' then Some(Div) else None
  }

  function AddOp(c: char): Option<Op2Kind> {
    if c == '+' then Some(Add) else if c == '-' then Some(Sub) else None
  }

  /** The expression tree: a literal, a unary minus over one child, or a binary
      operator over two children. */
  datatype Expr = Value(v: Scalar) | Op1(op1: Op1Kind, child: Expr) | Op2(op2: Op2Kind, l: Expr, r: Expr)

  /** What a top-level `parse` gives: a tree, no tree (the program prints
      "invalid expression"), or an abort (a Rust panic or a C++ exception). */
  datatype TopParse<T> = Tree(t: T) | NoTree | Abort

  /** Every literal of `e` is a value of kind `k`. */
  predicate WellKinded(k: Kind, e: Expr) {
    match e
    case Value(v) => OfKind(k, v)
    case Op1(_, c) => WellKinded(k, c)
    case Op2(_, l, r) => WellKinded(k, l) && WellKinded(k, r)
  }

  // ---------------------------------------------------------------- decimal text

  predicate IsDigit(c: char) { '0' <= c <= '9' }

  predicate AllDigits(s: string) { forall i :: 0 <= i < |s| ==> IsDigit(s[i]) }

  function DigitChar(d: nat): char
    requires d < 10
  {
    ('0' as int + d) as char
  }

  function DigitValue(c: char): nat
    requires IsDigit(c)
  {
    c as int - '0' as int
  }

  /** The value of a string of decimal digits (leading zeros allowed). */
  function DigitsValue(s: string): nat
    requires AllDigits(s)
  {
    if s == [] then 0 else DigitsValue(s[..|s| - 1]) * 10 + DigitValue(s[|s| - 1])
  }

  /** The decimal text of a natural number, without leading zeros. */
  function ShowNat(n: nat): (r: string)
    ensures r != [] && AllDigits(r)
    ensures |r| > 1 ==> r[0] != '0'
  {
    if n < 10 then [DigitChar(n)] else ShowNat(n / 10) + [DigitChar(n % 10)]
  }

  /** Reading back the decimal text of `n` gives `n`. */
  lemma {:induction false} DigitsValueShowNat(n: nat)
    ensures DigitsValue(ShowNat(n)) == n
  {
    var r := ShowNat(n);
    if n >= 10 {
      assert r[..|r| - 1] == ShowNat(n / 10);
      DigitsValueShowNat(n / 10);
    }
  }

  /** The decimal text of an integer, with a leading `-` when negative (the
      `Display` of Rust's integers and `operator<<` of C++'s). */
  function ShowInt(n: int): string {
    if n < 0 then "-" + ShowNat(-n) else ShowNat(n)
  }

  /** Different integers have different decimal texts. */
  lemma ShowIntInjective(a: int, b: int)
    requires ShowInt(a) == ShowInt(b)
    ensures a == b
  {
    assert ShowInt(a)[0] == '-' <==> a < 0;
    assert ShowInt(b)[0] == '-' <==> b < 0;
    if a < 0 {
      assert ShowNat(-a) == ShowInt(a)[1..];
      DigitsValueShowNat(-a);
      DigitsValueShowNat(-b);
    } else {
      DigitsValueShowNat(a);
      DigitsValueShowNat(b);
    }
  }

  /** A separator that occurs in neither left part splits a joined text in
      one place only. */
  lemma SplitAtSeparator(sep: char, a: string, b: string, c: string, d: string)
    requires sep !in a && sep !in c
    requires a + [sep] + b == c + [sep] + d
    ensures a == c && b == d
  {
    var x := a + [sep] + b;
    assert x[|a|] == sep && x[|c|] == sep;
    assert forall i :: 0 <= i < |a| ==> x[i] == a[i] != sep;
    assert forall i :: 0 <= i < |c| ==> x[i] == c[i] != sep;
    assert |a| == |c|;
    assert a == x[..|a|] && c == x[..|c|];
    assert b == x[|a| + 1..] && d == x[|c| + 1..];
  }

  function Show(v: Scalar): string {
    match v
    case Int(n) => ShowInt(n)
    case Text(s) => s
  }

  // ---------------------------------------------------------------- arithmetic

  function Abs(n: int): nat { if n < 0 then -n else n }

  /** Integer division truncating toward zero, as `/` does in Rust and C++
      (Dafny's own `/` is Euclidean). */
  function TruncDiv(a: int, b: int): (q: int)
    requires b != 0
    ensures Abs(q) == Abs(a) / Abs(b)
    ensures (a < 0 <==> b < 0) ==> q >= 0
    ensures (a < 0 <==> b > 0) ==> q <= 0
  {
    var m := Abs(a) / Abs(b);
    assert m >= 0 by { DivNonNeg(Abs(a), Abs(b)); }
    if a < 0 <==> b < 0 then m else -m
  }

  lemma DivNonNeg(x: nat, y: nat)
    requires y > 0
    ensures x / y >= 0
  {
  }

  /** The remainder `a - q*b` left by truncating division has the sign of the
      dividend and is smaller than the divisor in magnitude. */
  lemma TruncDivRemainder(a: int, b: int)
    requires b != 0
    ensures var r := a - TruncDiv(a, b) * b; Abs(r) < Abs(b) && (r == 0 || (r < 0) == (a < 0))
  {
    var m, aa, bb := Abs(a) / Abs(b), Abs(a), Abs(b);
    assert aa == m * bb + aa % bb;
    var q := TruncDiv(a, b);
    if a >= 0 && b > 0 { assert q * b == m * bb; }
    else if a >= 0 { assert q * b == m * bb; }
    else if b > 0 { assert q * b == -(m * bb); }
    else { assert q * b == -(m * bb); }
  }

  /** Wrap-around to 32 bits, as C++ does for `unsigned`. */
  function WrapU32(n: int): (r: int)
    ensures 0 <= r <= U32Max
    ensures (r - n) % U32Modulus == 0
  {
    n % U32Modulus
  }

  // ---------------------------------------------------------------- whitespace

  /** The characters Rust's `char::is_whitespace` accepts (Unicode White_Space),
      trimmed by `trim` and `trim_start`. */
  predicate IsRustSpace(c: char) {
    var n := c as int;
    (9 <= n <= 13) || n == 0x20 || n == 0x85 || n == 0xA0 || n == 0x1680
    || (0x2000 <= n <= 0x200A) || n == 0x2028 || n == 0x2029 || n == 0x202F
    || n == 0x205F || n == 0x3000
  }

  /** The characters C's `isspace` accepts in the "C" locale, skipped by C++
      formatted input. */
  predicate IsCSpace(c: char) {
    c == ' ' || c == '\t' || c == '\n' || c == '\r' || c as int == 0x0b || c as int == 0x0c
  }
}
