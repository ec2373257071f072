/** The C++ parser functions as written: they work on `std::cin` in place,
    here the `Stream` object, and `term` and `expression` are loops that
    extend the tree `f1`/`t1` to the left. Each is proved to do what the
    corresponding function of `CppParser` says. An exception is the `threw`
    result. */
module CppParserLoops {
  import opened Wrappers
  import opened ExprCore
  import opened CppStream
  import opened CppExpr
  import opened CppParser

  /** The outcome a method reports: an exception, or the pointer it returns
      with the stream as it left it. */
  function Ended(t: Ptr, threw: bool, st: In): Outcome {
    if threw then Threw else Got(t, st)
  }

  /** `terminal`. */
  method ReadTerminal(k: Kind, s: Stream) returns (t: Ptr)
    modifies s
    ensures Got(t, s.State()) == Terminal(k, old(s.State()))
  {
    var x := s.GetValue(k);
    t := if x.Some? then Leaf(x.value) else Nil;
  }

  /** `factor`: the optional minus is remembered while the operand is
      read. */
  method ParseFactor(k: Kind, v: Variant, s: Stream) returns (t: Ptr, threw: bool)
    modifies s
    ensures Ended(t, threw, s.State()) == Factor(k, v, old(s.State()))
    decreases |s.rest|, 2
  {
    ghost var st0 := s.State();
    var c := s.GetChar();
    if c.None? {
      return Nil, false;
    }
    var minus := c.value == '-';
    if !minus {
      s.Unget(c.value);
    }
    ghost var st1 := s.State();
    assert Factor(k, v, st0) == Operand(k, v, minus, st1);
    var d := s.GetChar();
    if d.None? {
      return Nil, false;
    }
    var e: Ptr;
    if d.value == '(' {
      ghost var inner := Expression(k, v, s.State());
      assert Operand(k, v, minus, st1) == Close(k, v, minus, inner);
      e, threw := ParseExpression(k, v, s);
      if threw {
        return Nil, true;
      }
      if e == Nil {
        return Nil, false;
      }
      var c3 := s.GetChar();
      if c3 != Some(')') {
        return Nil, false;
      }
    } else {
      s.Unget(d.value);
      e := ReadTerminal(k, s);
    }
    if minus {
      if v == Virtual && e == Nil {
        return Nil, true;
      }
      e := Neg(e);
    }
    return e, false;
  }

  /** `term`: the `for` loop over the characters after the first
      factor. */
  method ParseTerm(k: Kind, v: Variant, s: Stream) returns (t: Ptr, threw: bool)
    modifies s
    ensures Ended(t, threw, s.State()) == Term(k, v, old(s.State()))
    decreases |s.rest|, 4
  {
    ghost var st0 := s.State();
    var f1;
    f1, threw := ParseFactor(k, v, s);
    if threw || f1 == Nil {
      return f1, threw;
    }
    while true
      invariant Shape(k, v, f1)
      invariant |s.rest| <= |st0.rest|
      invariant TermTail(k, v, f1, s.State()) == Term(k, v, st0)
      decreases |s.rest|
    {
      var c := s.GetChar();
      if c.None? {
        return f1, false;
      }
      var op := MulOp(c.value);
      if op.None? {
        s.Unget(c.value);
        return f1, false;
      }
      var f2;
      f2, threw := ParseFactor(k, v, s);
      if threw || f2 == Nil {
        return f2, threw;
      }
      f1 := Bin(op.value, f1, f2);
    }
  }

  /** `expression`: the `for` loop over the characters after the first
      term. */
  method ParseExpression(k: Kind, v: Variant, s: Stream) returns (t: Ptr, threw: bool)
    modifies s
    ensures Ended(t, threw, s.State()) == Expression(k, v, old(s.State()))
    decreases |s.rest|, 6
  {
    ghost var st0 := s.State();
    var t1;
    t1, threw := ParseTerm(k, v, s);
    if threw || t1 == Nil {
      return t1, threw;
    }
    while true
      invariant Shape(k, v, t1)
      invariant |s.rest| <= |st0.rest|
      invariant ExprTail(k, v, t1, s.State()) == Expression(k, v, st0)
      decreases |s.rest|
    {
      var c := s.GetChar();
      if c.None? {
        return t1, false;
      }
      var op := AddOp(c.value);
      if op.None? {
        s.Unget(c.value);
        return t1, false;
      }
      var t2;
      t2, threw := ParseTerm(k, v, s);
      if threw || t2 == Nil {
        return t2, threw;
      }
      t1 := Bin(op.value, t1, t2);
    }
  }

  /** `parse` on a fresh `std::cin` holding `input`: the expression, then one
      more extraction to look for leftover input. */
  method ParseInput(k: Kind, v: Variant, input: string) returns (r: TopParse<Ptr>)
    ensures r == Parse(k, v, input)
  {
    var s := new Stream(input);
    var t, threw := ParseExpression(k, v, s);
    if threw {
      return Abort;
    }
    var c := s.GetChar();
    if c.Some? || t == Nil {
      return NoTree;
    }
    return Tree(t);
  }
}
