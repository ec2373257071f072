/** expr_static/src/main.rs, module `parser`: a recursive-descent parser over
    the text of one line. Each rule takes the unparsed text and returns the
    tree it recognised (or none) together with the text it leaves; the rules
    here are the specification, and the methods below them are the loops of
    the source proved equal to it.

      expression := term (('+' | '-') term)*
      term       := factor (('*' | '/') factor)*
      factor     := '-'? ('(' expression ')' | terminal)
*/
module ExprStaticParser {
  import opened Wrappers
  import opened ExprCore
  import opened ExprStatic

  /** What a rule returns, `(Option<Expr<T>>, &str)`, or a panic: the `unwrap`
      in `factor` panics when a `-` is followed by an operand that fails. */
  datatype Parsed = Parsed(e: Option<Expr>, rest: string) | Panicked

  /** Every integer literal of `e` is non-negative: integer literals are read
      from digits only, a sign is never part of them. */
  predicate NonNegLiterals(e: Expr) {
    match e
    case Value(v) => v.Int? ==> v.n >= 0
    case Op1(_, c) => NonNegLiterals(c)
    case Op2(_, l, r) => NonNegLiterals(l) && NonNegLiterals(r)
  }

  /** What a successful rule may return: a tree of kind `k` read from text. */
  predicate Good(k: Kind, r: Parsed, s: string) {
    r.Parsed? ==> |r.rest| <= |s| && (r.e.Some? ==> WellKinded(k, r.e.value) && NonNegLiterals(r.e.value))
  }

  // ---------------------------------------------------------------- library

  /** `str::trim_start`. */
  function TrimStart(s: string): (r: string)
    ensures |r| <= |s|
    ensures r == [] || !IsRustSpace(r[0])
  {
    if s != [] && IsRustSpace(s[0]) then TrimStart(s[1..]) else s
  }

  /** `str::trim_end`. */
  function TrimEnd(s: string): (r: string)
    ensures |r| <= |s| && r == s[..|r|]
    ensures r == [] || !IsRustSpace(r[|r| - 1])
  {
    if s != [] && IsRustSpace(s[|s| - 1]) then TrimEnd(s[..|s| - 1]) else s
  }

  /** `str::trim`. */
  function Trim(s: string): string {
    TrimEnd(TrimStart(s))
  }

  /** `TerminalEnd::pattern`: a character that cannot continue a literal; for
      the integer kinds any non-digit, for String only the space. */
  predicate TerminalEnd(k: Kind, c: char) {
    if k == Str then c == ' ' else !IsDigit(c)
  }

  /** `s.find(T::pattern).unwrap_or(s.len())`. */
  function FindEnd(k: Kind, s: string): (i: nat)
    ensures i <= |s|
    ensures forall j :: 0 <= j < i ==> !TerminalEnd(k, s[j])
    ensures i < |s| ==> TerminalEnd(k, s[i])
  {
    if s == [] || TerminalEnd(k, s[0]) then 0 else 1 + FindEnd(k, s[1..])
  }

  /** `str::parse::<T>()` (`FromStr`): for the integer kinds an optional `+`
      (or, for i32, `-`) and at least one digit, within the type's range; for
      String any text. */
  function FromStr(k: Kind, t: string): (r: Option<Scalar>)
    ensures r.Some? ==> OfKind(k, r.value)
    ensures k == Str ==> r == Some(Text(t))
  {
    if k == Str then Some(Text(t))
    else
      var neg := t != [] && t[0] == '-' && k == I32;
      var signed := neg || (t != [] && t[0] == '+');
      var d := if signed then t[1..] else t;
      if d != [] && AllDigits(d) then
        var n: int := if neg then -(DigitsValue(d) as int) else DigitsValue(d);
        if InRange(k, n) then Some(Int(n)) else None
      else None
  }

  // ---------------------------------------------------------------- rules

  /** `terminal`: after leading whitespace, the longest prefix without a
      terminating character, converted by `FromStr`. It fails on empty input,
      on an empty prefix and on a failed conversion, leaving the text at the
      start of the would-be literal. */
  function Terminal(k: Kind, s: string): (r: Parsed)
    ensures r.Parsed? && Good(k, r, s)
    ensures r.e.Some? ==> r.e.value.Value? && |r.rest| < |s|
  {
    var t := TrimStart(s);
    if t == [] then Parsed(None, t)
    else
      var i := FindEnd(k, t);
      if i == 0 then Parsed(None, t)
      else
        match FromStr(k, t[..i])
        case Some(v) =>
          assert v.Int? ==> v.n >= 0 by {
            if k != Str { assert t[..i][0] == t[0] && IsDigit(t[0]); }
          }
          Parsed(Some(Value(v)), t[i..])
        case None => Parsed(None, t)
  }

  /** The end of `factor`: the operand `e` is negated under a `-`, and its
      absence then panics. */
  function Negate(minus: bool, e: Option<Expr>, s: string): Parsed {
    if !minus then Parsed(e, s)
    else if e.None? then Panicked
    else Parsed(Some(Op1(Minus, e.value)), s)
  }

  /** `factor`: an optional `-`, then a parenthesised expression or a
      terminal. */
  function Factor(k: Kind, s: string): (r: Parsed)
    ensures Good(k, r, s)
    decreases |s|, 2
  {
    var s1 := TrimStart(s);
    if s1 == [] then Parsed(None, s1)
    else
      var minus := s1[0] == '-';
      Operand(k, minus, TrimStart(if minus then s1[1..] else s1))
  }

  /** The part of `factor` after the optional `-` (`minus`): a `-` before an
      operand that fails panics (`e.unwrap()`). */
  function Operand(k: Kind, minus: bool, s: string): (r: Parsed)
    ensures Good(k, r, s)
    decreases |s|, 1
  {
    if s == [] then Parsed(None, s)
    else if s[0] == '(' then Close(minus, Expression(k, s[1..]))
    else
      var t := Terminal(k, s);
      Negate(minus, t.e, t.rest)
  }

  /** The `(` branch of `factor` once the inner expression has been read
      (`inner`): an expression that fails panics under a `-`; a missing or
      wrong `)` returns no tree before the `unwrap` is reached. */
  function Close(minus: bool, inner: Parsed): (r: Parsed)
    ensures r.Parsed? ==> inner.Parsed? && |r.rest| <= |inner.rest|
    ensures r.Parsed? && r.e.Some? ==>
      inner.e.Some? && r.e.value == if minus then Op1(Minus, inner.e.value) else inner.e.value
  {
    match inner
    case Panicked => Panicked
    case Parsed(None, s3) => Negate(minus, None, s3)
    case Parsed(Some(e), s3) =>
      var s4 := TrimStart(s3);
      if s4 == [] || s4[0] != ')' then Parsed(None, s4)
      else Negate(minus, Some(e), s4[1..])
  }

  /** `term`: a factor, then the loop over `*` and `/`. */
  function Term(k: Kind, s: string): (r: Parsed)
    ensures Good(k, r, s)
    decreases |s|, 4
  {
    match Factor(k, s)
    case Panicked => Panicked
    case Parsed(None, _) => Parsed(None, s)
    case Parsed(Some(f1), s1) => TermTail(k, f1, s1)
  }

  /** One turn of the loop in `term` with `f1 == acc`: the tree built so far
      becomes the left child of the next operator, so the operators fold to
      the left. A failed right operand fails the rule, leaving the text just
      after the operator. */
  function TermTail(k: Kind, acc: Expr, s: string): (r: Parsed)
    requires WellKinded(k, acc) && NonNegLiterals(acc)
    ensures Good(k, r, s)
    decreases |s|, 3
  {
    var t := TrimStart(s);
    if t == [] || MulOp(t[0]).None? then Parsed(Some(acc), t)
    else
      var op := MulOp(t[0]).value;
      match Factor(k, t[1..])
      case Panicked => Panicked
      case Parsed(None, _) => Parsed(None, t[1..])
      case Parsed(Some(f2), s2) =>
        var r := TermTail(k, Op2(op, acc, f2), s2);
        r
  }

  /** `expression`: a term, then the loop over `+` and `-`. */
  function Expression(k: Kind, s: string): (r: Parsed)
    ensures Good(k, r, s)
    decreases |s|, 6
  {
    match Term(k, s)
    case Panicked => Panicked
    case Parsed(None, _) => Parsed(None, s)
    case Parsed(Some(t1), s1) => ExprTail(k, t1, s1)
  }

  /** One turn of the loop in `expression` with `t1 == acc`. */
  function ExprTail(k: Kind, acc: Expr, s: string): (r: Parsed)
    requires WellKinded(k, acc) && NonNegLiterals(acc)
    ensures Good(k, r, s)
    decreases |s|, 5
  {
    var t := TrimStart(s);
    if t == [] || AddOp(t[0]).None? then Parsed(Some(acc), t)
    else
      var op := AddOp(t[0]).value;
      match Term(k, t[1..])
      case Panicked => Panicked
      case Parsed(None, _) => Parsed(None, t[1..])
      case Parsed(Some(t2), s2) =>
        var r := ExprTail(k, Op2(op, acc, t2), s2);
        r
  }

  // ---------------------------------------------------------------- top level

  /** `parse`: the expression at the start of the trimmed line. Whatever text
      the expression leaves is ignored, so `12x` reads as `12`. */
  function Parse(k: Kind, line: string): TopParse<Expr> {
    match Expression(k, Trim(line))
    case Panicked => Abort
    case Parsed(None, _) => NoTree
    case Parsed(Some(e), _) => Tree(e)
  }

  /** What `run` prints on standard output, line by line, and its exit
      status; a panic exits with status 101 after its message on standard
      error. Reading the line (and its I/O error) is not modelled: the line
      is a parameter. */
  datatype RunResult = RunResult(stdout: seq<string>, status: int)

  const PanicStatus := 101

  function Run(k: Kind, line: string): (r: RunResult)
    ensures r.status == 0 || r.status == PanicStatus
  {
    match Parse(k, line)
    case Abort => RunResult([], PanicStatus)
    case NoTree => RunResult(["invalid expression"], 0)
    case Tree(e) =>
      assert WellKinded(k, e) by { ParseGood(k, line); }
      match Eval(k, e)
      case Val(v) => RunResult([Display(e), Show(v)], 0)
      case NoValue => RunResult([Display(e), "no value"], 0)
      case Panic => RunResult([Display(e)], PanicStatus)
  }

  lemma ParseGood(k: Kind, line: string)
    ensures Parse(k, line).Tree? ==> WellKinded(k, Parse(k, line).t) && NonNegLiterals(Parse(k, line).t)
  {
  }

  // ---------------------------------------------------------------- the loops

  lemma FactorUnfold(k: Kind, s: string)
    ensures var s1 := TrimStart(s);
      s1 != [] ==> Factor(k, s) == Operand(k, s1[0] == '-', TrimStart(if s1[0] == '-' then s1[1..] else s1))
  {
  }

  lemma OperandUnfold(k: Kind, minus: bool, s: string)
    requires s != []
    ensures s[0] == '(' ==> Operand(k, minus, s) == Close(minus, Expression(k, s[1..]))
    ensures s[0] != '(' ==> Operand(k, minus, s) == Negate(minus, Terminal(k, s).e, Terminal(k, s).rest)
  {
  }

  /** `factor` as written: the cursor `s` is rebound step by step. */
  method ParseFactor(k: Kind, input: string) returns (r: Parsed)
    ensures r == Factor(k, input)
    decreases |input|, 2
  {
    FactorUnfold(k, input);
    var s := TrimStart(input);
    if s == [] {
      return Parsed(None, s);
    }
    var minus := false;
    if s[0] == '-' {
      minus := true;
      s := s[1..];
    }
    s := TrimStart(s);
    assert Factor(k, input) == Operand(k, minus, s);
    if s == [] {
      return Parsed(None, s);
    }
    ghost var expected := Operand(k, minus, s);
    OperandUnfold(k, minus, s);
    var e: Option<Expr>;
    if s[0] == '(' {
      s := s[1..];
      var inner := ParseExpression(k, s);
      assert expected == Close(minus, inner);
      if inner.Panicked? {
        return Panicked;
      }
      e, s := inner.e, inner.rest;
      if e.Some? {
        s := TrimStart(s);
        if s == [] || s[0] != ')' {
          return Parsed(None, s);
        }
        s := s[1..];
      }
      assert expected == Negate(minus, e, s);
    } else {
      var t := Terminal(k, s);
      e, s := t.e, t.rest;
      assert expected == Negate(minus, e, s);
    }
    if minus {
      if e.None? {
        return Panicked;
      }
      e := Some(Op1(Minus, e.value));
    }
    return Parsed(e, s);
  }

  /** `term` as written: `f1` accumulates the left-leaning tree. */
  method ParseTerm(k: Kind, input: string) returns (r: Parsed)
    ensures r == Term(k, input)
    decreases |input|, 3
  {
    var first := ParseFactor(k, input);
    if first.Panicked? {
      return Panicked;
    }
    if first.e.None? {
      return Parsed(None, input);
    }
    var f1, s := first.e.value, first.rest;
    while true
      invariant WellKinded(k, f1) && NonNegLiterals(f1)
      invariant |s| <= |input|
      invariant TermTail(k, f1, s) == Term(k, input)
      decreases |s|
    {
      var t := TrimStart(s);
      if t == [] || MulOp(t[0]).None? {
        return Parsed(Some(f1), t);
      }
      var op := MulOp(t[0]).value;
      s := t[1..];
      var next := ParseFactor(k, s);
      if next.Panicked? {
        return Panicked;
      }
      if next.e.None? {
        return Parsed(None, s);
      }
      f1, s := Op2(op, f1, next.e.value), next.rest;
    }
  }

  /** `expression` as written: `t1` accumulates the left-leaning tree. */
  method ParseExpression(k: Kind, input: string) returns (r: Parsed)
    ensures r == Expression(k, input)
    decreases |input|, 4
  {
    var first := ParseTerm(k, input);
    if first.Panicked? {
      return Panicked;
    }
    if first.e.None? {
      return Parsed(None, input);
    }
    var t1, s := first.e.value, first.rest;
    while true
      invariant WellKinded(k, t1) && NonNegLiterals(t1)
      invariant |s| <= |input|
      invariant ExprTail(k, t1, s) == Expression(k, input)
      decreases |s|
    {
      var t := TrimStart(s);
      if t == [] || AddOp(t[0]).None? {
        return Parsed(Some(t1), t);
      }
      var op := AddOp(t[0]).value;
      s := t[1..];
      var next := ParseTerm(k, s);
      if next.Panicked? {
        return Panicked;
      }
      if next.e.None? {
        return Parsed(None, s);
      }
      t1, s := Op2(op, t1, next.e.value), next.rest;
    }
  }
}
