/** The rules of the Rust parser (expr_static/src/main.rs, module `parser`)
    only ever consume text from the front: the text a rule leaves is a suffix
    of the text it was given. The rules are mutually recursive, and so are
    these lemmas, on the same lexicographic measure. */
module ExprStaticSuffix {
  import opened Wrappers
  import opened ExprCore
  import opened ExprStatic
  import opened ExprStaticParser

  /** What a rule leaves is a suffix of its input. */
  predicate Leaves(r: Parsed, s: string) {
    r.Parsed? ==> IsSuffix(r.rest, s)
  }

  lemma {:induction false} TrimStartSuffix(s: string)
    ensures IsSuffix(TrimStart(s), s)
  {
    if s != [] && IsRustSpace(s[0]) {
      TrimStartSuffix(s[1..]);
      SuffixTrans(TrimStart(s[1..]), s[1..], s);
    }
  }

  lemma DropSuffix(s: string, i: nat)
    requires i <= |s|
    ensures IsSuffix(s[i..], s)
  {
  }

  lemma TerminalSuffix(k: Kind, s: string)
    ensures Leaves(Terminal(k, s), s)
  {
    var t := TrimStart(s);
    TrimStartSuffix(s);
    if t != [] {
      var i := FindEnd(k, t);
      DropSuffix(t, i);
      SuffixTrans(t[i..], t, s);
    }
  }

  /** The step of `Close` that reads `)`: what is left after it is a suffix
      of what the inner expression left. */
  lemma CloseSuffix(minus: bool, inner: Parsed)
    ensures inner.Parsed? ==> Leaves(Close(minus, inner), inner.rest)
  {
    if inner.Parsed? && inner.e.Some? {
      var s3 := inner.rest;
      var s4 := TrimStart(s3);
      TrimStartSuffix(s3);
      if s4 != [] {
        DropSuffix(s4, 1);
        SuffixTrans(s4[1..], s4, s3);
      }
    }
  }

  /** A suffix of what is left after one character of a suffix of `s` is a
      suffix of `s`. */
  lemma SuffixChain(s: string, t: string, a: string, b: string)
    requires IsSuffix(t, s) && t != [] && IsSuffix(a, t[1..]) && IsSuffix(b, a)
    ensures IsSuffix(b, s)
  {
    DropSuffix(t, 1);
    SuffixTrans(a, t[1..], t);
    SuffixTrans(a, t, s);
    SuffixTrans(b, a, s);
  }

  lemma {:induction false} FactorSuffix(k: Kind, s: string)
    ensures Leaves(Factor(k, s), s)
    decreases |s|, 2
  {
    var s1 := TrimStart(s);
    TrimStartSuffix(s);
    if s1 != [] {
      var minus := s1[0] == '-';
      var s2 := if minus then s1[1..] else s1;
      DropSuffix(s1, if minus then 1 else 0);
      var s3 := TrimStart(s2);
      TrimStartSuffix(s2);
      SuffixTrans(s3, s2, s1);
      SuffixTrans(s3, s1, s);
      OperandSuffix(k, minus, s3);
      var r := Operand(k, minus, s3);
      if r.Parsed? {
        SuffixTrans(r.rest, s3, s);
      }
    }
  }

  lemma {:induction false} OperandSuffix(k: Kind, minus: bool, s: string)
    ensures Leaves(Operand(k, minus, s), s)
    decreases |s|, 1
  {
    if s != [] {
      if s[0] == '(' {
        var inner := Expression(k, s[1..]);
        ExpressionSuffix(k, s[1..]);
        CloseSuffix(minus, inner);
        if inner.Parsed? && Close(minus, inner).Parsed? {
          DropSuffix(s, 1);
          SuffixTrans(inner.rest, s[1..], s);
          SuffixTrans(Close(minus, inner).rest, inner.rest, s);
        }
      } else {
        TerminalSuffix(k, s);
      }
    }
  }

  lemma {:induction false} TermSuffix(k: Kind, s: string)
    ensures Leaves(Term(k, s), s)
    decreases |s|, 4
  {
    var f := Factor(k, s);
    FactorSuffix(k, s);
    if f.Parsed? && f.e.Some? {
      TermTailSuffix(k, f.e.value, f.rest);
      var r := TermTail(k, f.e.value, f.rest);
      if r.Parsed? {
        SuffixTrans(r.rest, f.rest, s);
      }
    }
  }

  lemma {:induction false} TermTailSuffix(k: Kind, acc: Expr, s: string)
    requires WellKinded(k, acc) && NonNegLiterals(acc)
    ensures Leaves(TermTail(k, acc, s), s)
    decreases |s|, 3
  {
    var t := TrimStart(s);
    TrimStartSuffix(s);
    if t != [] && MulOp(t[0]).Some? {
      var f := Factor(k, t[1..]);
      FactorSuffix(k, t[1..]);
      if f.Parsed? && f.e.Some? {
        var acc' := Op2(MulOp(t[0]).value, acc, f.e.value);
        TermTailSuffix(k, acc', f.rest);
        var r := TermTail(k, acc', f.rest);
        assert TermTail(k, acc, s) == r;
        if r.Parsed? {
          SuffixChain(s, t, f.rest, r.rest);
        }
      }
    }
  }

  lemma {:induction false} ExpressionSuffix(k: Kind, s: string)
    ensures Leaves(Expression(k, s), s)
    decreases |s|, 6
  {
    var f := Term(k, s);
    TermSuffix(k, s);
    if f.Parsed? && f.e.Some? {
      ExprTailSuffix(k, f.e.value, f.rest);
      var r := ExprTail(k, f.e.value, f.rest);
      if r.Parsed? {
        SuffixTrans(r.rest, f.rest, s);
      }
    }
  }

  lemma {:induction false} ExprTailSuffix(k: Kind, acc: Expr, s: string)
    requires WellKinded(k, acc) && NonNegLiterals(acc)
    ensures Leaves(ExprTail(k, acc, s), s)
    decreases |s|, 5
  {
    var t := TrimStart(s);
    TrimStartSuffix(s);
    if t != [] && AddOp(t[0]).Some? {
      var f := Term(k, t[1..]);
      TermSuffix(k, t[1..]);
      if f.Parsed? && f.e.Some? {
        var acc' := Op2(AddOp(t[0]).value, acc, f.e.value);
        ExprTailSuffix(k, acc', f.rest);
        var r := ExprTail(k, acc', f.rest);
        assert ExprTail(k, acc, s) == r;
        if r.Parsed? {
          SuffixChain(s, t, f.rest, r.rest);
        }
      }
    }
  }
}
